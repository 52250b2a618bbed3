/** The buffer pool of radbuffers.c as a protocol. Any number of processes take and release
    buffers; what radBufferGet and radBufferRls do under the segment's lock is one step, and
    each of their three accesses to the allocated flag outside the lock is a step of its own. */
module BufferPool {
  import opened BufferLayout
  import opened Sequences
  import opened Wrappers

  /** A block's header. */
  datatype Hdr = Hdr(next: nat, sizeIndex: nat, flag: nat)

  /** A block that is on no free chain: popped but not yet flagged, held by a caller, or
      cleared but not yet pushed. */
  datatype Phase = Popped | Held | Cleared

  /** The calls under way, by the block they work on: a radBufferGet that has popped and not yet
      flagged, a radBufferRls that has found the flag set and not yet cleared it, and one that
      has cleared it and not yet pushed. */
  datatype Calls = Calls(popped: multiset<nat>, tested: multiset<nat>, cleared: multiset<nat>)

  /** The pool record, the headers by their offsets, where the blocks off the chains are, and
      the calls under way. */
  datatype State = State(numSizes: nat, sizes: seq<nat>, count: seq<nat>, pool: seq<nat>, allocCount: nat,
                         hdr: map<nat, Hdr>, fly: map<nat, Phase>, calls: Calls)

  // ----- the steps -----

  /** A size compared with ULONG values. */
  function Unsigned(size: int): int {
    if size < 0 then size + 0x1_0000_0000 else size
  }

  function FirstFit(sizes: seq<nat>, size: int, i: nat): (k: nat)
    requires i <= |sizes|
    ensures i <= k <= |sizes|
    decreases |sizes| - i
  {
    if i == |sizes| || sizes[i] >= size then i else FirstFit(sizes, size, i + 1)
  }

  function FirstFilled(sizes: seq<nat>, pool: seq<nat>, i: nat): (k: nat)
    requires i <= |sizes| == |pool|
    ensures i <= k <= |sizes| && (k < |sizes| ==> sizes[k] != 0 && pool[k] != 0)
    decreases |sizes| - i
  {
    if i == |sizes| || sizes[i] == 0 then |sizes|
    else if pool[i] == 0 then FirstFilled(sizes, pool, i + 1)
    else i
  }

  /** The class radBufferGet takes from; |sizes| when it returns NULL. */
  function Choose(sizes: seq<nat>, pool: seq<nat>, size: int): (k: nat)
    requires |sizes| == |pool|
    ensures k <= |sizes| && (k < |sizes| ==> pool[k] != 0)
  {
    FirstFilled(sizes, pool, FirstFit(sizes, Unsigned(size), 0))
  }

  datatype Move = Pop(size: int) | Flag(block: nat) | Test(block: nat) | Store(block: nat) | Push(block: nat)

  /** When a step may come: anyone may ask for a buffer and call radBufferRls for a block, held
      or not; the rest follows in a call that has begun. */
  predicate Allowed(s: State, m: Move) {
    match m
    case Pop(_) => true
    case Flag(b) => b in s.calls.popped
    case Test(b) => b in s.hdr
    case Store(b) => b in s.calls.tested
    case Push(b) => b in s.calls.cleared
  }

  /** The tables are there and headers are where they are looked for. */
  predicate Sane(s: State, m: Move) {
    && |s.sizes| == |s.pool|
    && match m
       case Pop(size) => var k := Choose(s.sizes, s.pool, size); k < |s.pool| ==> s.pool[k] in s.hdr
       case Push(b) => b in s.hdr && s.hdr[b].sizeIndex < |s.pool|
       case _ => m.block in s.hdr
  }

  function Step(s: State, m: Move): State
    requires Sane(s, m)
  {
    match m
    case Pop(size) =>
      var k := Choose(s.sizes, s.pool, size);
      if k == |s.pool| then s
      else
        var b := s.pool[k];
        s.(pool := s.pool[k := s.hdr[b].next], allocCount := s.allocCount + 1, fly := s.fly[b := Popped],
           calls := s.calls.(popped := s.calls.popped + multiset{b}))
    case Flag(b) =>
      s.(hdr := s.hdr[b := s.hdr[b].(flag := 1)], fly := s.fly[b := Held],
         calls := s.calls.(popped := s.calls.popped - multiset{b}))
    case Test(b) =>
      if s.hdr[b].flag != 1 then s else s.(calls := s.calls.(tested := s.calls.tested + multiset{b}))
    case Store(b) =>
      s.(hdr := s.hdr[b := s.hdr[b].(flag := 0)], fly := s.fly[b := Cleared],
         calls := s.calls.(tested := s.calls.tested - multiset{b}, cleared := s.calls.cleared + multiset{b}))
    case Push(b) =>
      var k := s.hdr[b].sizeIndex;
      s.(hdr := s.hdr[b := s.hdr[b].(next := s.pool[k])], pool := s.pool[k := b], fly := s.fly - {b},
         calls := s.calls.(cleared := s.calls.cleared - multiset{b}))
  }

  /** No second radBufferRls of a block gets past the test while one is under way. */
  predicate Single(s: State, m: Move) {
    m.Test? && m.block in s.hdr && s.hdr[m.block].flag == 1 ==> m.block !in s.calls.tested
  }

  // ----- the invariant -----

  /** The free chain from `first`: linked through next, ended by 0. */
  ghost predicate Chain(hdr: map<nat, Hdr>, first: nat, c: seq<nat>)
    decreases |c|
  {
    if c == [] then first == 0
    else first == c[0] != 0 && first in hdr && Chain(hdr, hdr[first].next, c[1..])
  }

  /** A chain from `first`, ended by 0, of blocks of the row, each at most once. */
  ghost predicate ChainOf(hdr: map<nat, Hdr>, first: nat, row: seq<nat>, c: seq<nat>) {
    Chain(hdr, first, c) && Distinct(c) && forall b | b in c :: b in row
  }

  /** The blocks of each class: no two alike, none at offset 0. */
  ghost predicate RowsOk(rows: seq<seq<nat>>) {
    && (forall i | 0 <= i < |rows| :: Distinct(rows[i]) && 0 !in rows[i])
    && forall i, j | 0 <= i < j < |rows| :: forall b | b in rows[i] :: b !in rows[j]
  }

  /** One class: its chain is made of its own blocks, and a block's header says where it is. */
  ghost predicate ClassOk(s: State, i: nat, row: seq<nat>, c: seq<nat>)
    requires i < |s.pool|
  {
    && ChainOf(s.hdr, s.pool[i], row, c)
    && forall b | b in row ::
         && b in s.hdr && s.hdr[b].sizeIndex == i && (b in c <==> b !in s.fly)
         && s.hdr[b].flag == if b in s.fly && s.fly[b] == Held then 1 else 0
  }

  /** The tables: sizes grow from class to class, the rest of each table is zero. */
  ghost predicate TablesOk(s: State, rows: seq<seq<nat>>) {
    && |s.sizes| == |s.count| == |s.pool| == |rows| && s.numSizes <= |rows|
    && (forall i | 0 <= i < |rows| :: s.count[i] == |rows[i]|)
    && (forall i | 0 <= i < s.numSizes :: 0 < s.sizes[i] < 0x8000_0000)
    && (forall i, j | 0 <= i < j < s.numSizes :: s.sizes[i] < s.sizes[j])
    && (forall i | s.numSizes <= i < |rows| :: s.sizes[i] == 0 && rows[i] == [])
  }

  /** Headers stand where blocks are, and only blocks of the segment are off the chains. */
  ghost predicate HeadersOk(s: State, rows: seq<seq<nat>>) {
    && (forall b | b in s.hdr :: s.hdr[b].sizeIndex < |rows| && b in rows[s.hdr[b].sizeIndex])
    && forall b | b in s.fly :: b in s.hdr
  }

  predicate Is(fly: map<nat, Phase>, b: nat, p: Phase) { b in fly && fly[b] == p }

  /** Every call under way has its block in the phase it left it in, and no other call has. */
  ghost predicate CallsOk(fly: map<nat, Phase>, calls: Calls) {
    forall b ::
      && calls.popped[b] == One(Is(fly, b, Popped))
      && calls.tested[b] <= One(Is(fly, b, Held))
      && calls.cleared[b] == One(Is(fly, b, Cleared))
  }

  ghost predicate Inv(s: State, rows: seq<seq<nat>>, chains: seq<seq<nat>>) {
    && TablesOk(s, rows) && RowsOk(rows) && |chains| == |rows|
    && (forall i | 0 <= i < |rows| :: ClassOk(s, i, rows[i], chains[i]))
    && HeadersOk(s, rows) && CallsOk(s.fly, s.calls)
  }

  // ----- every step keeps it -----

  /** A chain only depends on the next fields of its blocks. */
  lemma {:induction false} ChainSame(hdr: map<nat, Hdr>, hdr': map<nat, Hdr>, first: nat, c: seq<nat>)
    requires Chain(hdr, first, c)
    requires forall b | b in c && b in hdr :: b in hdr' && hdr'[b].next == hdr[b].next
    ensures Chain(hdr', first, c)
    decreases |c|
  {
    if c != [] {
      assert first in c;
      ChainSame(hdr, hdr', hdr[first].next, c[1..]);
    }
  }

  lemma {:induction false} ChainEmpty(hdr: map<nat, Hdr>, first: nat, c: seq<nat>)
    requires Chain(hdr, first, c)
    ensures first == 0 <==> c == []
  {
  }

  lemma {:induction false} PopClass(s: State, t: State, k: nat, row: seq<nat>, c: seq<nat>, b: nat)
    requires k < |s.pool| == |t.pool| && ClassOk(s, k, row, c) && s.pool[k] == b != 0
    requires b in s.hdr ==> t.pool[k] == s.hdr[b].next
    requires t.hdr == s.hdr && t.fly == s.fly[b := Popped]
    ensures c != [] && b == c[0] && b in s.hdr && b in row && ClassOk(t, k, row, c[1..])
  {
    ChainEmpty(s.hdr, b, c);
    assert b == c[0] && b in c;
    assert b !in c[1..] by {
      assert forall i | 0 <= i < |c[1..]| :: c[1..][i] == c[i + 1];
    }
    assert forall x :: x in c <==> x == b || x in c[1..];
  }

  /** A class none of whose blocks is touched. */
  lemma {:induction false} OtherClass(s: State, t: State, i: nat, row: seq<nat>, c: seq<nat>, b: nat)
    requires i < |s.pool| == |t.pool| && ClassOk(s, i, row, c) && t.pool[i] == s.pool[i] && b !in row
    requires forall x | x in s.hdr && x != b :: x in t.hdr && t.hdr[x] == s.hdr[x]
    requires forall x | x != b :: (x in t.fly <==> x in s.fly) && (x in s.fly ==> t.fly[x] == s.fly[x])
    ensures ClassOk(t, i, row, c)
  {
    ChainSame(s.hdr, t.hdr, s.pool[i], c);
  }

  /** A block of the class changes its flag and its phase, off the chain. */
  lemma {:induction false} FlagClass(s: State, t: State, i: nat, row: seq<nat>, c: seq<nat>, b: nat, h: Hdr, p: Phase)
    requires i < |s.pool| && t.pool == s.pool && ClassOk(s, i, row, c) && b in row && b in s.fly
    requires t.hdr == s.hdr[b := h] && t.fly == s.fly[b := p]
    requires h == s.hdr[b].(flag := if p == Held then 1 else 0)
    ensures ClassOk(t, i, row, c)
  {
    ChainSame(s.hdr, t.hdr, s.pool[i], c);
  }

  lemma {:induction false} PushClass(s: State, t: State, k: nat, row: seq<nat>, c: seq<nat>, b: nat)
    requires k < |s.pool| == |t.pool| && ClassOk(s, k, row, c) && b in row && b in s.fly && s.fly[b] != Held && b != 0
    requires t.pool[k] == b && t.hdr == s.hdr[b := s.hdr[b].(next := s.pool[k])] && t.fly == s.fly - {b}
    ensures ClassOk(t, k, row, [b] + c)
  {
    assert b !in c;
    ChainSame(s.hdr, t.hdr, s.pool[k], c);
    var c' := [b] + c;
    assert c'[1..] == c;
    assert forall x :: x in c' <==> x == b || x in c;
    assert forall i | 0 < i < |c'| :: c'[i] == c[i - 1];
  }

  /** Where a block off the chains is: in the row its header names, and in no other. */
  lemma {:induction false} BlockOfRow(s: State, rows: seq<seq<nat>>, chains: seq<seq<nat>>, k: nat, b: nat)
    requires Inv(s, rows, chains) && k < |rows| && b in rows[k]
    ensures b != 0 && b in s.hdr && s.hdr[b].sizeIndex == k && (b in s.fly <==> b !in chains[k])
    ensures forall i | 0 <= i < |rows| && i != k :: b !in rows[i]
  {
    assert ClassOk(s, k, rows[k], chains[k]);
    forall i | 0 <= i < |rows| && i != k ensures b !in rows[i] {
      if i < k {
        assert forall x | x in rows[i] :: x !in rows[k];
      } else {
        assert forall x | x in rows[k] :: x !in rows[i];
      }
    }
  }

  /** The block radBufferGet pops is the first of its class's chain. */
  lemma {:induction false} PopFinds(s: State, rows: seq<seq<nat>>, chains: seq<seq<nat>>, k: nat)
    requires Inv(s, rows, chains) && k < |rows| && s.pool[k] != 0
    ensures chains[k] != [] && s.pool[k] == chains[k][0] && s.pool[k] in s.hdr && s.pool[k] in rows[k]
      && s.pool[k] !in s.fly
  {
    assert ClassOk(s, k, rows[k], chains[k]);
    ChainEmpty(s.hdr, s.pool[k], chains[k]);
    assert chains[k][0] in chains[k];
  }

  lemma {:induction false} StepIsSane(s: State, rows: seq<seq<nat>>, chains: seq<seq<nat>>, m: Move)
    requires Inv(s, rows, chains) && Allowed(s, m)
    ensures Sane(s, m)
  {
    if m.Pop? {
      var k := Choose(s.sizes, s.pool, m.size);
      if k < |s.pool| { PopFinds(s, rows, chains, k); }
    } else if !m.Test? {
      assert m.block in s.fly;
    }
  }

  lemma {:induction false} HeadersStay(s: State, t: State, rows: seq<seq<nat>>, k: nat, b: nat)
    requires HeadersOk(s, rows) && k < |rows| && b in rows[k] && b in t.hdr && t.hdr[b].sizeIndex == k
    requires t.hdr.Keys == s.hdr.Keys
    requires forall x | x in s.hdr && x != b :: x in t.hdr && t.hdr[x] == s.hdr[x]
    requires forall x | x != b :: (x in t.fly <==> x in s.fly) && (x in s.fly ==> t.fly[x] == s.fly[x])
    ensures HeadersOk(t, rows)
  {
    forall x | x in t.hdr ensures t.hdr[x].sizeIndex < |rows| && x in rows[t.hdr[x].sizeIndex] {
      assert x in s.hdr.Keys;
    }
  }

  /** Of the classes, only the one with the block concerned changes. */
  lemma {:induction false} OthersStay(s: State, t: State, rows: seq<seq<nat>>, chains: seq<seq<nat>>, k: nat,
                                      c: seq<nat>, b: nat)
    requires Inv(s, rows, chains) && TablesOk(t, rows) && k < |rows| && b in rows[k] && ClassOk(t, k, rows[k], c)
    requires forall i | 0 <= i < |rows| && i != k :: t.pool[i] == s.pool[i]
    requires t.hdr.Keys == s.hdr.Keys && CallsOk(t.fly, t.calls)
    requires forall x | x in s.hdr && x != b :: x in t.hdr && t.hdr[x] == s.hdr[x]
    requires forall x | x != b :: (x in t.fly <==> x in s.fly) && (x in s.fly ==> t.fly[x] == s.fly[x])
    ensures Inv(t, rows, chains[k := c])
  {
    hide HeadersOk, RowsOk, ClassOk, CallsOk;
    BlockOfRow(s, rows, chains, k, b);
    HeaderOfBlock(t, k, rows[k], c, b);
    HeadersStay(s, t, rows, k, b);
    var chains' := chains[k := c];
    forall i | 0 <= i < |rows| ensures ClassOk(t, i, rows[i], chains'[i]) {
      if i != k {
        assert ClassOk(s, i, rows[i], chains[i]);
        OtherClass(s, t, i, rows[i], chains[i], b);
      }
    }
  }

  lemma {:induction false} HeaderOfBlock(s: State, k: nat, row: seq<nat>, c: seq<nat>, b: nat)
    requires k < |s.pool| && ClassOk(s, k, row, c) && b in row
    ensures b in s.hdr && s.hdr[b].sizeIndex == k
  {
  }

  /** The free chains after a step. */
  function ChainsAfter(s: State, chains: seq<seq<nat>>, m: Move): seq<seq<nat>>
    requires Sane(s, m) && |chains| == |s.pool|
  {
    match m
    case Pop(size) =>
      var k := Choose(s.sizes, s.pool, size);
      if k == |s.pool| || chains[k] == [] then chains else chains[k := chains[k][1..]]
    case Push(b) => var k := s.hdr[b].sizeIndex; chains[k := [b] + chains[k]]
    case _ => chains
  }

  lemma {:induction false} PopKeepsInv(s: State, rows: seq<seq<nat>>, chains: seq<seq<nat>>, size: int)
    requires Inv(s, rows, chains) && Sane(s, Pop(size))
    ensures Inv(Step(s, Pop(size)), rows, ChainsAfter(s, chains, Pop(size)))
  {
    hide ClassOk, RowsOk, Choose, CallsOk;
    var k, t := Choose(s.sizes, s.pool, size), Step(s, Pop(size));
    if k < |s.pool| {
      var b := s.pool[k];
      assert ClassOk(s, k, rows[k], chains[k]);
      PopFinds(s, rows, chains, k);
      PopClass(s, t, k, rows[k], chains[k], b);
      CallsPopped(s.fly, s.calls, b);
      OthersStay(s, t, rows, chains, k, chains[k][1..], b);
    }
  }

  lemma {:induction false} FlagOfBlock(s: State, rows: seq<seq<nat>>, chains: seq<seq<nat>>, b: nat)
    requires Inv(s, rows, chains) && b in s.hdr
    ensures s.hdr[b].flag == if b in s.fly && s.fly[b] == Held then 1 else 0
  {
    var k := s.hdr[b].sizeIndex;
    assert ClassOk(s, k, rows[k], chains[k]);
  }

  // The calls under way at each step.

  lemma {:induction false} CallsPopped(fly: map<nat, Phase>, calls: Calls, b: nat)
    requires CallsOk(fly, calls) && b !in fly
    ensures CallsOk(fly[b := Popped], calls.(popped := calls.popped + multiset{b}))
  {
  }

  lemma {:induction false} CallsFlagged(fly: map<nat, Phase>, calls: Calls, b: nat)
    requires CallsOk(fly, calls) && b in calls.popped
    ensures b in fly && CallsOk(fly[b := Held], calls.(popped := calls.popped - multiset{b}))
  {
  }

  lemma {:induction false} CallsTested(fly: map<nat, Phase>, calls: Calls, b: nat)
    requires CallsOk(fly, calls) && Is(fly, b, Held) && b !in calls.tested
    ensures CallsOk(fly, calls.(tested := calls.tested + multiset{b}))
  {
  }

  lemma {:induction false} CallsStored(fly: map<nat, Phase>, calls: Calls, b: nat)
    requires CallsOk(fly, calls) && b in calls.tested
    ensures Is(fly, b, Held)
    ensures var calls' := calls.(tested := calls.tested - multiset{b}, cleared := calls.cleared + multiset{b});
      CallsOk(fly[b := Cleared], calls')
  {
  }

  lemma {:induction false} CallsPushed(fly: map<nat, Phase>, calls: Calls, b: nat)
    requires CallsOk(fly, calls) && b in calls.cleared
    ensures Is(fly, b, Cleared) && CallsOk(fly - {b}, calls.(cleared := calls.cleared - multiset{b}))
  {
  }

  lemma {:induction false} NewFlagKeepsInv(s: State, t: State, rows: seq<seq<nat>>, chains: seq<seq<nat>>, b: nat,
                                           p: Phase)
    requires Inv(s, rows, chains) && b in s.hdr && b in s.fly && CallsOk(t.fly, t.calls)
    requires var h := s.hdr[b].(flag := if p == Held then 1 else 0);
      t == s.(hdr := s.hdr[b := h], fly := s.fly[b := p], calls := t.calls)
    ensures Inv(t, rows, chains)
  {
    hide RowsOk, ClassOk, CallsOk;
    var k := s.hdr[b].sizeIndex;
    assert ClassOk(s, k, rows[k], chains[k]);
    BlockOfRow(s, rows, chains, k, b);
    FlagClass(s, t, k, rows[k], chains[k], b, t.hdr[b], p);
    OthersStay(s, t, rows, chains, k, chains[k], b);
    assert chains[k := chains[k]] == chains;
  }

  lemma {:induction false} FlagKeepsInv(s: State, rows: seq<seq<nat>>, chains: seq<seq<nat>>, m: Move)
    requires Inv(s, rows, chains) && Allowed(s, m) && Sane(s, m) && (m.Flag? || m.Store?)
    ensures Inv(Step(s, m), rows, chains)
  {
    hide RowsOk, ClassOk, TablesOk, HeadersOk, CallsOk, Choose;
    if m.Flag? {
      CallsFlagged(s.fly, s.calls, m.block);
    } else {
      CallsStored(s.fly, s.calls, m.block);
    }
    NewFlagKeepsInv(s, Step(s, m), rows, chains, m.block, if m.Flag? then Held else Cleared);
  }

  lemma {:induction false} TestKeepsInv(s: State, rows: seq<seq<nat>>, chains: seq<seq<nat>>, b: nat)
    requires Inv(s, rows, chains) && Sane(s, Test(b)) && Single(s, Test(b))
    ensures Inv(Step(s, Test(b)), rows, chains)
  {
    hide Inv, CallsOk, Choose;
    FlagOfBlock(s, rows, chains, b);
    if s.hdr[b].flag == 1 {
      InvCalls(s, rows, chains);
      CallsTested(s.fly, s.calls, b);
      OtherCalls(s, rows, chains, s.calls.(tested := s.calls.tested + multiset{b}));
    }
  }

  lemma {:induction false} InvSizes(s: State, rows: seq<seq<nat>>, chains: seq<seq<nat>>)
    requires Inv(s, rows, chains)
    ensures |s.sizes| == |s.pool| == |chains| == |rows|
  {
  }

  lemma {:induction false} InvCalls(s: State, rows: seq<seq<nat>>, chains: seq<seq<nat>>)
    requires Inv(s, rows, chains)
    ensures CallsOk(s.fly, s.calls)
  {
  }

  /** The chains and headers do not depend on the calls under way. */
  lemma {:induction false} OtherCalls(s: State, rows: seq<seq<nat>>, chains: seq<seq<nat>>, calls: Calls)
    requires Inv(s, rows, chains) && CallsOk(s.fly, calls)
    ensures Inv(s.(calls := calls), rows, chains)
  {
    hide RowsOk, CallsOk, Chain, Distinct;
    var t := s.(calls := calls);
    forall i | 0 <= i < |rows| ensures ClassOk(t, i, rows[i], chains[i]) {
      assert ClassOk(s, i, rows[i], chains[i]);
    }
  }

  lemma {:induction false} PushKeepsInv(s: State, rows: seq<seq<nat>>, chains: seq<seq<nat>>, b: nat)
    requires Inv(s, rows, chains) && Allowed(s, Push(b)) && Sane(s, Push(b))
    ensures Inv(Step(s, Push(b)), rows, ChainsAfter(s, chains, Push(b)))
  {
    hide ClassOk, RowsOk, Choose, CallsOk;
    var k, t := s.hdr[b].sizeIndex, Step(s, Push(b));
    assert ClassOk(s, k, rows[k], chains[k]);
    BlockOfRow(s, rows, chains, k, b);
    CallsPushed(s.fly, s.calls, b);
    PushClass(s, t, k, rows[k], chains[k], b);
    OthersStay(s, t, rows, chains, k, [b] + chains[k], b);
  }

  lemma {:induction false} StepKeepsInv(s: State, rows: seq<seq<nat>>, chains: seq<seq<nat>>, m: Move)
    requires Inv(s, rows, chains) && Allowed(s, m) && Single(s, m)
    ensures Sane(s, m) && Inv(Step(s, m), rows, ChainsAfter(s, chains, m))
  {
    StepIsSane(s, rows, chains, m);
    match m
    case Pop(size) => PopKeepsInv(s, rows, chains, size);
    case Test(b) => TestKeepsInv(s, rows, chains, b);
    case Push(b) => PushKeepsInv(s, rows, chains, b);
    case _ => FlagKeepsInv(s, rows, chains, m);
  }

  // ----- every run -----

  /** A schedule in which calls go through their steps in order. */
  ghost predicate Legal(s: State, moves: seq<Move>)
    decreases |moves|
  {
    moves != [] ==> Allowed(s, moves[0]) && (Sane(s, moves[0]) ==> Legal(Step(s, moves[0]), moves[1..]))
  }

  /** A schedule without double releases. */
  ghost predicate Careful(s: State, moves: seq<Move>)
    decreases |moves|
  {
    moves != [] ==> Single(s, moves[0]) && (Sane(s, moves[0]) ==> Careful(Step(s, moves[0]), moves[1..]))
  }

  /** Where a schedule leads; None if a step looked for a header where there is none. */
  ghost function Run(s: State, moves: seq<Move>): Option<State>
    decreases |moves|
  {
    if moves == [] then Some(s)
    else if !Sane(s, moves[0]) then None
    else Run(Step(s, moves[0]), moves[1..])
  }

  /** As radBuffersInit leaves it: every block on its class's chain, in address order, and no
      call under way. */
  ghost predicate Fresh(s: State, rows: seq<seq<nat>>) {
    Inv(s, rows, rows) && s.fly == map[] && s.calls == Calls(multiset{}, multiset{}, multiset{})
  }

  lemma {:induction false} RunKeepsInv(s: State, rows: seq<seq<nat>>, chains: seq<seq<nat>>, moves: seq<Move>)
    returns (chains': seq<seq<nat>>)
    requires Inv(s, rows, chains) && Legal(s, moves) && Careful(s, moves)
    ensures Run(s, moves).Some? && Inv(Run(s, moves).value, rows, chains')
    decreases |moves|
  {
    hide Step, RowsOk, ClassOk;
    if moves == [] {
      chains' := chains;
    } else {
      StepKeepsInv(s, rows, chains, moves[0]);
      chains' := RunKeepsInv(Step(s, moves[0]), rows, ChainsAfter(s, chains, moves[0]), moves[1..]);
    }
  }

  /** A state some schedule without double releases leads to. */
  ghost predicate Reachable(s: State, rows: seq<seq<nat>>) {
    exists s0, moves :: Fresh(s0, rows) && Legal(s0, moves) && Careful(s0, moves) && Run(s0, moves) == Some(s)
  }

  /** In every such state each class has a free chain that ends in 0, and each block is on that
      chain or off it in exactly one phase. */
  lemma {:induction false} RunsKeepTheChains(s: State, rows: seq<seq<nat>>)
    requires Reachable(s, rows)
    ensures exists chains :: Inv(s, rows, chains)
  {
    var s0, moves :| Fresh(s0, rows) && Legal(s0, moves) && Careful(s0, moves) && Run(s0, moves) == Some(s);
    var chains := RunKeepsInv(s0, rows, rows, moves);
  }

  // ----- double releases -----

  ghost predicate HasChain(hdr: map<nat, Hdr>, first: nat, row: seq<nat>) {
    exists c :: ChainOf(hdr, first, row, c)
  }

  /** Every class has such a chain. */
  ghost predicate Intact(s: State, rows: seq<seq<nat>>) {
    |s.pool| == |rows| && forall i | 0 <= i < |rows| :: HasChain(s.hdr, s.pool[i], rows[i])
  }

  lemma {:induction false} InvIsIntact(s: State, rows: seq<seq<nat>>, chains: seq<seq<nat>>)
    requires Inv(s, rows, chains)
    ensures Intact(s, rows)
  {
    hide ChainOf, HasChain;
    forall i | 0 <= i < |rows| ensures HasChain(s.hdr, s.pool[i], rows[i]) {
      assert ClassOk(s, i, rows[i], chains[i]);
      GivesChain(s.hdr, s.pool[i], rows[i], chains[i]);
    }
  }

  lemma {:induction false} GivesChain(hdr: map<nat, Hdr>, first: nat, row: seq<nat>, c: seq<nat>)
    requires ChainOf(hdr, first, row, c)
    ensures HasChain(hdr, first, row)
  {
  }

  lemma {:induction false} CyclicIsNoChain(hdr: map<nat, Hdr>, b: nat, c: seq<nat>)
    requires b in hdr && hdr[b].next == b != 0
    ensures !Chain(hdr, b, c)
    decreases |c|
  {
    if c != [] { CyclicIsNoChain(hdr, b, c[1..]); }
  }

  /** Two releases of a block that have both found its flag set, carried to their ends. */
  function BothFinish(b: nat): seq<Move> {
    [Store(b)] + ([Store(b)] + ([Push(b)] + ([Push(b)] + [])))
  }

  lemma {:induction false} OneMove(s: State, m: Move, rest: seq<Move>)
    requires Allowed(s, m) && Sane(s, m)
    ensures Legal(s, [m] + rest) <==> Legal(Step(s, m), rest)
    ensures Run(s, [m] + rest) == Run(Step(s, m), rest)
  {
    assert ([m] + rest)[1..] == rest;
  }

  /** The block then links to itself, and its class has no chain any more. */
  lemma {:induction false} DoubleReleaseBreaks(s: State, rows: seq<seq<nat>>, b: nat)
    requires b in s.hdr && b != 0 && s.hdr[b].sizeIndex < |s.pool| == |s.sizes| && 2 <= s.calls.tested[b]
    ensures Legal(s, BothFinish(b)) && Run(s, BothFinish(b)).Some?
    ensures var t := Run(s, BothFinish(b)).value; b in t.hdr && t.hdr[b].next == b && !Intact(t, rows)
  {
    hide Legal, Run, Chain, Distinct;
    var s1 := Step(s, Store(b));
    var s2 := Step(s1, Store(b));
    var s3 := Step(s2, Push(b));
    var s4 := Step(s3, Push(b));
    OneMove(s, Store(b), [Store(b)] + ([Push(b)] + ([Push(b)] + [])));
    OneMove(s1, Store(b), [Push(b)] + ([Push(b)] + []));
    OneMove(s2, Push(b), [Push(b)] + []);
    OneMove(s3, Push(b), []);
    NoMoves(s4);
    CyclicIsNotIntact(s4, rows, b, s.hdr[b].sizeIndex);
  }

  lemma {:induction false} NoMoves(s: State)
    ensures Legal(s, []) && Run(s, []) == Some(s)
  {
  }

  lemma {:induction false} CyclicIsNotIntact(s: State, rows: seq<seq<nat>>, b: nat, k: nat)
    requires b in s.hdr && s.hdr[b].next == b != 0 && k < |s.pool| && s.pool[k] == b
    ensures !Intact(s, rows)
  {
    forall c ensures !Chain(s.hdr, b, c) { CyclicIsNoChain(s.hdr, b, c); }
    assert k < |rows| ==> !HasChain(s.hdr, s.pool[k], rows[k]);
  }

  /** Any block that is held can be released twice at the same moment: both calls find its flag
      set, both succeed, and its class has no chain any more. */
  lemma {:induction false} ReleasedTwice(s: State, rows: seq<seq<nat>>, chains: seq<seq<nat>>, b: nat)
    requires Inv(s, rows, chains) && Is(s.fly, b, Held)
    ensures var moves := [Test(b)] + ([Test(b)] + BothFinish(b));
      Legal(s, moves) && Run(s, moves).Some? && !Intact(Run(s, moves).value, rows)
  {
    hide RowsOk, CallsOk, ClassOk, Intact, Run, Legal;
    FlagOfBlock(s, rows, chains, b);
    BlockOfRow(s, rows, chains, s.hdr[b].sizeIndex, b);
    var s1 := Step(s, Test(b));
    var s2 := Step(s1, Test(b));
    OneMove(s, Test(b), [Test(b)] + BothFinish(b));
    OneMove(s1, Test(b), BothFinish(b));
    DoubleReleaseBreaks(s2, rows, b);
  }

  /** Only calls under way go on; none begins. */
  predicate Finishing(moves: seq<Move>) {
    forall m | m in moves :: !m.Pop? && !m.Test?
  }

  lemma {:induction false} FinishingIsCareful(s: State, moves: seq<Move>)
    requires Finishing(moves)
    ensures Careful(s, moves)
    decreases |moves|
  {
    if moves != [] {
      assert moves[0] in moves && forall m | m in moves[1..] :: m in moves;
      if Sane(s, moves[0]) { FinishingIsCareful(Step(s, moves[0]), moves[1..]); }
    }
  }

  /** However the calls under way finish, the chains stay intact. */
  ghost predicate FinishesIntact(s: State, rows: seq<seq<nat>>) {
    forall more | Finishing(more) && Legal(s, more) :: Run(s, more).Some? && Intact(Run(s, more).value, rows)
  }

  lemma {:induction false} InvFinishesIntact(s: State, rows: seq<seq<nat>>, chains: seq<seq<nat>>)
    requires Inv(s, rows, chains)
    ensures FinishesIntact(s, rows)
  {
    forall more | Finishing(more) && Legal(s, more) ensures Run(s, more).Some? && Intact(Run(s, more).value, rows) {
      FinishingIsCareful(s, more);
      var chains' := RunKeepsInv(s, rows, chains, more);
      InvIsIntact(Run(s, more).value, rows, chains');
    }
  }

  /** At every point of a schedule, the chains survive the calls under way. */
  ghost predicate AlwaysIntact(s: State, rows: seq<seq<nat>>, moves: seq<Move>)
    decreases |moves|
  {
    FinishesIntact(s, rows) && (moves != [] && Sane(s, moves[0]) ==> AlwaysIntact(Step(s, moves[0]), rows, moves[1..]))
  }

  lemma {:induction false} SecondTestBreaks(s: State, rows: seq<seq<nat>>, chains: seq<seq<nat>>, m: Move)
    requires Inv(s, rows, chains) && Allowed(s, m) && !Single(s, m)
    ensures Sane(s, m) && !FinishesIntact(Step(s, m), rows)
  {
    hide RowsOk, Choose, CallsOk, ClassOk, Intact, Run, Legal;
    StepIsSane(s, rows, chains, m);
    var b := m.block;
    var t, k := Step(s, m), s.hdr[b].sizeIndex;
    BlockOfRow(s, rows, chains, k, b);
    DoubleReleaseBreaks(t, rows, b);
    assert Finishing(BothFinish(b));
  }

  /** Whatever comes in between, the chains survive at every point if and only if no second
      release of a block gets past the test while one is under way. */
  lemma {:induction false} IntactExactly(s: State, rows: seq<seq<nat>>, chains: seq<seq<nat>>, moves: seq<Move>)
    requires Inv(s, rows, chains) && Legal(s, moves)
    ensures AlwaysIntact(s, rows, moves) <==> Careful(s, moves)
    decreases |moves|
  {
    hide Inv, Step, FinishesIntact, Allowed, Single, Sane;
    InvFinishesIntact(s, rows, chains);
    InvSizes(s, rows, chains);
    if moves != [] {
      var m := moves[0];
      StepIsSane(s, rows, chains, m);
      if Single(s, m) {
        StepKeepsInv(s, rows, chains, m);
        IntactExactly(Step(s, m), rows, ChainsAfter(s, chains, m), moves[1..]);
      } else {
        SecondTestBreaks(s, rows, chains, m);
      }
    }
  }

  /** Each block is in exactly one place: on its own class's chain, once, and on no other; or in
      one of the three phases. */
  lemma {:induction false} OnePlace(s: State, rows: seq<seq<nat>>, chains: seq<seq<nat>>, k: nat, b: nat)
    requires Inv(s, rows, chains) && k < |rows| && b in rows[k]
    ensures b in chains[k] <==> b !in s.fly
    ensures forall i, j | 0 <= i < j < |chains[k]| :: chains[k][i] != chains[k][j]
    ensures forall i | 0 <= i < |rows| && i != k :: b !in chains[i]
  {
    BlockOfRow(s, rows, chains, k, b);
    assert ClassOk(s, k, rows[k], chains[k]);
    forall i | 0 <= i < |rows| && i != k ensures b !in chains[i] {
      assert ClassOk(s, i, rows[i], chains[i]);
    }
  }

  /** The test of radBufferRls passes exactly for buffers that are held; any other block is
      refused with ERROR, and nothing changes. */
  lemma {:induction false} OnlyHeldIsReleased(s: State, rows: seq<seq<nat>>, b: nat)
    requires Reachable(s, rows) && b in s.hdr
    ensures Sane(s, Test(b))
    ensures Step(s, Test(b)) ==
      if Is(s.fly, b, Held) then s.(calls := s.calls.(tested := s.calls.tested + multiset{b})) else s
  {
    RunsKeepTheChains(s, rows);
    var chains :| Inv(s, rows, chains);
    hide Inv, Reachable;
    StepIsSane(s, rows, chains, Test(b));
    FlagOfBlock(s, rows, chains, b);
  }

  /** Whether class i would do for a request. */
  ghost predicate Fits(s: State, i: nat, size: int) {
    i < s.numSizes <= |s.sizes| && s.sizes[i] >= Unsigned(size)
  }

  lemma {:induction false} FirstFitIs(sizes: seq<nat>, size: int, i: nat)
    requires i <= |sizes|
    ensures var k := FirstFit(sizes, size, i);
      (k < |sizes| ==> sizes[k] >= size) && forall j | i <= j < k :: sizes[j] < size
    decreases |sizes| - i
  {
    if i < |sizes| && sizes[i] < size { FirstFitIs(sizes, size, i + 1); }
  }

  lemma {:induction false} FirstFilledIs(sizes: seq<nat>, pool: seq<nat>, i: nat, n: nat)
    requires i <= |sizes| == |pool| && n <= |sizes|
    requires (forall j | 0 <= j < n :: sizes[j] != 0) && forall j | n <= j < |sizes| :: sizes[j] == 0
    ensures var k := FirstFilled(sizes, pool, i);
      (k < |sizes| ==> k < n) && forall j | i <= j < k && j < n :: pool[j] == 0
    decreases |sizes| - i
  {
    if i < |sizes| && sizes[i] != 0 && pool[i] == 0 { FirstFilledIs(sizes, pool, i + 1, n); }
  }

  /** radBufferGet takes the first block of the smallest class that fits and has one; it
      returns NULL exactly when no class that fits has a block. The block was nobody's. */
  lemma {:induction false} GetIsSmallestFit(s: State, rows: seq<seq<nat>>, chains: seq<seq<nat>>, size: int)
    requires Inv(s, rows, chains) && -0x8000_0000 <= size < 0x8000_0000
    ensures var k := Choose(s.sizes, s.pool, size);
      if k < |s.pool| then
        && Fits(s, k, size) && s.sizes[k] >= size && chains[k] != [] && s.pool[k] == chains[k][0] && s.pool[k] !in s.fly
        && forall i | 0 <= i < k && Fits(s, i, size) :: chains[i] == []
      else forall i | 0 <= i < |rows| && Fits(s, i, size) :: chains[i] == []
  {
    var k, f := Choose(s.sizes, s.pool, size), FirstFit(s.sizes, Unsigned(size), 0);
    FirstFitIs(s.sizes, Unsigned(size), 0);
    FirstFilledIs(s.sizes, s.pool, f, s.numSizes);
    forall i | 0 <= i < k && i < |rows| && Fits(s, i, size) ensures chains[i] == [] {
      assert ClassOk(s, i, rows[i], chains[i]);
      ChainEmpty(s.hdr, s.pool[i], chains[i]);
    }
    if k < |s.pool| {
      PopFinds(s, rows, chains, k);
    }
  }

  /** The same in plain sizes: a request that is not negative takes the first block of the
      smallest class that is large enough and has one, and its chain goes on with the others. */
  lemma {:induction false} GetTakes(s: State, rows: seq<seq<nat>>, chains: seq<seq<nat>>, size: int)
    requires Inv(s, rows, chains) && -0x8000_0000 <= size < 0x8000_0000
    ensures Sane(s, Pop(size)) && |s.pool| == |s.sizes| == |chains| && s.numSizes <= |chains|
    ensures var k, chains' := Choose(s.sizes, s.pool, size), ChainsAfter(s, chains, Pop(size));
      if k < |s.pool| then
        && k < s.numSizes && 0 <= size <= s.sizes[k] && chains[k] != [] && s.pool[k] == chains[k][0] != 0
        && chains' == chains[k := chains[k][1..]]
        && forall i | 0 <= i < k && size <= s.sizes[i] :: chains[i] == []
      else
        && chains' == chains
        && forall i | 0 <= i < s.numSizes && 0 <= size <= s.sizes[i] :: chains[i] == []
  {
    hide RowsOk, ClassOk, HeadersOk, CallsOk, Choose;
    StepIsSane(s, rows, chains, Pop(size));
    GetIsSmallestFit(s, rows, chains, size);
    var k := Choose(s.sizes, s.pool, size);
    assert forall i | 0 <= i < s.numSizes :: s.sizes[i] < 0x8000_0000;
    if k < |s.pool| { PopFinds(s, rows, chains, k); }
  }

  // ----- conservation -----

  function TotalOf(rows: seq<seq<nat>>): nat {
    if rows == [] then 0 else |rows[0]| + TotalOf(rows[1..])
  }

  ghost function InPhase(s: State, p: Phase): set<nat> {
    set b | b in s.fly && s.fly[b] == p
  }

  /** The blocks of a row that are off the chain. */
  ghost function Off(s: State, row: seq<nat>): set<nat> {
    set b | b in row && b in s.fly
  }

  /** The blocks of some rows that are off the chains. */
  ghost function OffAll(s: State, rows: seq<seq<nat>>): set<nat> {
    if rows == [] then {} else Off(s, rows[0]) + OffAll(s, rows[1..])
  }

  lemma {:induction false} RowSplits(s: State, i: nat, row: seq<nat>, c: seq<nat>)
    requires i < |s.pool| && ClassOk(s, i, row, c) && Distinct(row)
    ensures |row| == |c| + |Off(s, row)|
  {
    hide Chain, Distinct;
    MemberCount(row);
    MemberCount(c);
    assert Members(row) == Members(c) + Off(s, row) && Members(c) !! Off(s, row);
  }

  lemma {:induction false} OffAllMembers(s: State, rows: seq<seq<nat>>, b: nat)
    ensures b in OffAll(s, rows) <==> b in s.fly && exists i :: 0 <= i < |rows| && b in rows[i]
  {
    if rows != [] {
      OffAllMembers(s, rows[1..], b);
      assert forall i | 0 <= i < |rows[1..]| :: rows[1..][i] == rows[i + 1];
      assert (exists i :: 0 <= i < |rows| && b in rows[i])
        <==> b in rows[0] || exists i :: 0 <= i < |rows[1..]| && b in rows[1..][i] by {
        if i :| 0 <= i < |rows| && b in rows[i] {
          assert i == 0 || b in rows[1..][i - 1];
        }
      }
    }
  }

  lemma {:induction false} SumSplits(s: State, from: nat, rows: seq<seq<nat>>, chains: seq<seq<nat>>)
    requires |rows| == |chains| && from + |rows| <= |s.pool| && RowsOk(rows)
    requires forall i | 0 <= i < |rows| :: ClassOk(s, from + i, rows[i], chains[i])
    ensures TotalOf(rows) == TotalOf(chains) + |OffAll(s, rows)|
    decreases |rows|
  {
    if rows != [] {
      hide ClassOk;
      var rest, tail := rows[1..], chains[1..];
      assert forall i | 0 <= i < |rest| :: rest[i] == rows[i + 1] && tail[i] == chains[i + 1];
      forall i | 0 <= i < |rest| ensures ClassOk(s, from + 1 + i, rest[i], tail[i]) {
        assert ClassOk(s, from + (i + 1), rows[i + 1], chains[i + 1]);
      }
      SumSplits(s, from + 1, rest, tail);
      assert ClassOk(s, from + 0, rows[0], chains[0]);
      RowSplits(s, from, rows[0], chains[0]);
      forall b | b in Off(s, rows[0]) ensures b !in OffAll(s, rest) {
        OffAllMembers(s, rest, b);
      }
      assert Off(s, rows[0]) !! OffAll(s, rest);
    }
  }

  lemma {:induction false} OffIsFlying(s: State, rows: seq<seq<nat>>)
    requires forall b | b in s.fly :: exists i :: 0 <= i < |rows| && b in rows[i]
    ensures OffAll(s, rows) == s.fly.Keys
  {
    forall b ensures b in OffAll(s, rows) <==> b in s.fly.Keys {
      OffAllMembers(s, rows, b);
    }
  }

  lemma {:induction false} PhasesSplit(s: State)
    ensures |s.fly.Keys| == |InPhase(s, Popped)| + |InPhase(s, Held)| + |InPhase(s, Cleared)|
  {
    var a, h, c := InPhase(s, Popped), InPhase(s, Held), InPhase(s, Cleared);
    assert s.fly.Keys == a + h + c;
    assert a !! h && (a + h) !! c;
  }

  lemma {:induction false} FlyingHaveRows(s: State, rows: seq<seq<nat>>, chains: seq<seq<nat>>)
    requires Inv(s, rows, chains)
    ensures forall b | b in s.fly :: exists i :: 0 <= i < |rows| && b in rows[i]
    ensures |rows| == |s.pool| == |chains| && RowsOk(rows)
    ensures forall i | 0 <= i < |rows| :: ClassOk(s, 0 + i, rows[i], chains[i])
  {
    hide ClassOk, RowsOk;
    assert forall i | 0 <= i < |rows| :: ClassOk(s, i, rows[i], chains[i]);
  }

  /** Free, popped, held and cleared blocks always sum to what radBuffersGetTotal returns. */
  lemma {:induction false} NoBlockIsLost(s: State, rows: seq<seq<nat>>, chains: seq<seq<nat>>)
    requires Inv(s, rows, chains)
    ensures TotalOf(chains) + |InPhase(s, Popped)| + |InPhase(s, Held)| + |InPhase(s, Cleared)| == TotalOf(rows)
  {
    hide Inv, ClassOk, RowsOk, OffAll, InPhase, TotalOf;
    FlyingHaveRows(s, rows, chains);
    SumSplits(s, 0, rows, chains);
    OffIsFlying(s, rows);
    PhasesSplit(s);
  }
}
