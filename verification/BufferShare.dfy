/** The calls of radbuffers.c on the shared segment. */
module BufferShare {
  import opened BufferLayout
  import opened BufferPool
  import opened Sequences

  // ----- what radBuffersInit lays out -----

  /** A table of the pool record: an entry for each class, zeros behind. */
  function SizeTable(cs: seq<Class>): (t: seq<nat>)
    requires |cs| <= MAX_BFR_SIZES
    ensures |t| == MAX_BFR_SIZES && forall i | 0 <= i < MAX_BFR_SIZES :: t[i] == if i < |cs| then cs[i].size else 0
  {
    seq(MAX_BFR_SIZES, i requires 0 <= i < MAX_BFR_SIZES => if i < |cs| then cs[i].size else 0)
  }

  function CountTable(cs: seq<Class>): (t: seq<nat>)
    requires |cs| <= MAX_BFR_SIZES
    ensures |t| == MAX_BFR_SIZES && forall i | 0 <= i < MAX_BFR_SIZES :: t[i] == if i < |cs| then cs[i].count else 0
  {
    seq(MAX_BFR_SIZES, i requires 0 <= i < MAX_BFR_SIZES => if i < |cs| then cs[i].count else 0)
  }

  /** The rows, with an empty one for each unused class. */
  function AllRows(cs: seq<Class>): (rows: seq<seq<nat>>)
    requires |cs| <= MAX_BFR_SIZES
    ensures |rows| == MAX_BFR_SIZES
    ensures forall i | 0 <= i < MAX_BFR_SIZES :: rows[i] == if i < |cs| then Rows(SHARE, cs)[i] else []
  {
    seq(MAX_BFR_SIZES, i requires 0 <= i < MAX_BFR_SIZES => if i < |cs| then Rows(SHARE, cs)[i] else [])
  }

  lemma {:induction false} RowsAreOk(cs: seq<Class>)
    requires |cs| <= MAX_BFR_SIZES
    ensures RowsOk(AllRows(cs))
  {
    hide Rows, Row, Width, End;
    var rows := AllRows(cs);
    forall i | 0 <= i < |rows| ensures Distinct(rows[i]) && 0 !in rows[i] {
      forall j, k | 0 <= j < k < |rows[i]| ensures rows[i][j] != rows[i][k] { BlocksApart(SHARE, cs, i, j, i, k); }
      forall j | 0 <= j < |rows[i]| ensures rows[i][j] != 0 { BlockInSegment(SHARE, cs, i, j); }
    }
    forall i, i' | 0 <= i < i' < |rows| ensures forall b | b in rows[i] :: b !in rows[i'] {
      forall j, j' | 0 <= j < |rows[i]| && 0 <= j' < |rows[i']| ensures rows[i][j] != rows[i'][j'] {
        BlocksApart(SHARE, cs, i, j, i', j');
      }
    }
  }

  /** Where the chain goes on behind block j - 1. */
  function NextOf(row: seq<nat>, j: nat): nat {
    if j < |row| then row[j] else 0
  }

  /** A row as it is laid out: chained in order, not allocated. */
  ghost predicate RowLaid(hdr: map<nat, Hdr>, row: seq<nat>, i: nat) {
    forall j | 0 <= j < |row| :: row[j] in hdr && hdr[row[j]] == Hdr(NextOf(row, j + 1), i, 0)
  }

  lemma {:induction false} LaidIsChained(hdr: map<nat, Hdr>, row: seq<nat>, i: nat, j: nat)
    requires RowLaid(hdr, row, i) && 0 !in row && j <= |row|
    ensures Chain(hdr, NextOf(row, j), row[j..])
    decreases |row| - j
  {
    if j < |row| {
      LaidIsChained(hdr, row, i, j + 1);
      assert row[j..][1..] == row[j + 1..];
    }
  }

  lemma {:induction false} LaidIsOk(s: State, i: nat, row: seq<nat>)
    requires i < |s.pool| && RowLaid(s.hdr, row, i) && Distinct(row) && 0 !in row && s.fly == map[]
      && s.pool[i] == NextOf(row, 0)
    ensures ClassOk(s, i, row, row)
  {
    LaidIsChained(s.hdr, row, i, 0);
    assert row[0..] == row;
  }

  /** Doubling sizes grow, and none is larger than the segment. */
  lemma {:induction false} SizesGrow(cs: seq<Class>, max: int, i: nat, j: nat)
    requires Doubling(cs, max) && cs != [] && 0 < cs[0].size && i < j < |cs|
    ensures 0 < cs[i].size < cs[j].size
    decreases i + j
  {
    if i + 1 < j {
      SizesGrow(cs, max, i, j - 1);
    } else if 0 < i {
      SizesGrow(cs, max, i - 1, i);
    }
  }

  lemma {:induction false} TablesAreOk(s: State, cs: seq<Class>, max: int)
    requires |cs| <= MAX_BFR_SIZES && Doubling(cs, max) && (cs != [] ==> 0 < cs[0].size) && End(SHARE, cs) < 0x8000_0000
    requires forall i | 0 <= i < |cs| :: 0 < cs[i].count
    requires s.numSizes == |cs| && s.sizes == SizeTable(cs) && s.count == CountTable(cs) && |s.pool| == MAX_BFR_SIZES
    ensures TablesOk(s, AllRows(cs))
  {
    hide Rows, End, Doubling;
    forall i, j | 0 <= i < j < |cs| ensures s.sizes[i] < s.sizes[j] {
      SizesGrow(cs, max, i, j);
    }
    forall i | 0 <= i < |cs| ensures 0 < s.sizes[i] < 0x8000_0000 {
      if 0 < i { SizesGrow(cs, max, i - 1, i); }
      BlockInSegment(SHARE, cs, i, 0);
    }
  }

  /** The segment as radBuffersInit leaves it satisfies the invariant, nothing handed out. */
  lemma {:induction false} LaidOutIsFresh(s: State, cs: seq<Class>, max: int)
    requires |cs| <= MAX_BFR_SIZES && Doubling(cs, max) && (cs != [] ==> 0 < cs[0].size) && End(SHARE, cs) < 0x8000_0000
    requires forall i | 0 <= i < |cs| :: 0 < cs[i].count
    requires s.numSizes == |cs| && s.sizes == SizeTable(cs) && s.count == CountTable(cs) && |s.pool| == MAX_BFR_SIZES
    requires forall i | 0 <= i < MAX_BFR_SIZES ::
      && s.pool[i] == NextOf(AllRows(cs)[i], 0)
      && RowLaid(s.hdr, AllRows(cs)[i], i)
    requires forall b | b in s.hdr :: s.hdr[b].sizeIndex < |cs| && b in AllRows(cs)[s.hdr[b].sizeIndex]
    requires s.fly == map[] && s.calls == Calls(multiset{}, multiset{}, multiset{})
    ensures Fresh(s, AllRows(cs))
  {
    hide Doubling, End, Rows, RowLaid, RowsOk, ClassOk, TablesOk, NextOf, Distinct;
    var rows := AllRows(cs);
    RowsAreOk(cs);
    TablesAreOk(s, cs, max);
    forall i | 0 <= i < |rows| ensures ClassOk(s, i, rows[i], rows[i]) {
      RowIsDistinct(rows, i);
      LaidIsOk(s, i, rows[i]);
    }
  }

  // ----- the loops of radBuffersInit -----

  /** The first size. */
  method StartSize(min: nat) returns (size: nat)
    ensures size == Double(0x10, min)
  {
    size := 0x10;
    while size < min
      invariant 0 < size && Double(size, min) == Double(0x10, min)
      decreases min - size
    {
      size := 2 * size;
    }
  }

  lemma {:induction false} EndAppend(base: nat, cs: seq<Class>, c: Class)
    ensures End(base, cs + [c]) == End(base, cs) + Width(c)
    decreases |cs|
  {
    if cs == [] {
      assert cs + [c] == [c] && [c][1..] == [];
    } else {
      assert (cs + [c])[1..] == cs[1..] + [c];
      EndAppend(base + Width(cs[0]), cs[1..], c);
    }
  }

  /** The classes still to come. */
  ghost function Ahead(lastOne: bool, i: nat, size: nat, max: int, counts: seq<int>): seq<Class>
    requires i <= MAX_BFR_SIZES == |counts|
  {
    if lastOne then [] else Classes(i, size, max, counts)
  }

  lemma {:induction false} AheadStep(all: seq<Class>, cs: seq<Class>, i: nat, size: nat, max: int, counts: seq<int>)
    requires i < MAX_BFR_SIZES == |counts| && counts[i] > 0 && all == cs + Ahead(false, i, size, max, counts)
    ensures all == cs + [Class(size, counts[i])] + Ahead(size >= max, i + 1, 2 * size, max, counts)
  {
  }

  lemma {:induction false} AheadDone(lastOne: bool, i: nat, size: nat, max: int, counts: seq<int>)
    requires i <= MAX_BFR_SIZES == |counts| && (i == MAX_BFR_SIZES || counts[i] <= 0 || lastOne)
    ensures Ahead(lastOne, i, size, max, counts) == []
  {
  }

  /** The sizes, the bytes each class takes, and the length of the segment. */
  method PlanSizes(start: nat, max: int, counts: seq<int>) returns (cs: seq<Class>, offsets: seq<nat>, length: nat)
    requires |counts| == MAX_BFR_SIZES
    ensures cs == Classes(0, start, max, counts) && length == End(SHARE, cs)
    ensures |offsets| == |cs| && forall i | 0 <= i < |cs| :: offsets[i] == Width(cs[i])
  {
    ghost var all := Classes(0, start, max, counts);
    assert all == [] + Ahead(false, 0, start, max, counts) && SHARE == End(SHARE, []);
    hide Width, Ahead, Classes, End;
    var i: nat, size: nat, lastOne := 0, start, false;
    cs, offsets, length := [], [], SHARE;
    while i < MAX_BFR_SIZES && counts[i] > 0 && !lastOne
      invariant i == |cs| == |offsets| <= MAX_BFR_SIZES && length == End(SHARE, cs)
      invariant forall k | 0 <= k < i :: offsets[k] == Width(cs[k])
      invariant all == cs + Ahead(lastOne, i, size, max, counts)
    {
      AheadStep(all, cs, i, size, max, counts);
      if size >= max {
        lastOne := true;
      }
      var c := Class(size, counts[i]);
      EndAppend(SHARE, cs, c);
      offsets := offsets + [Width(c)];
      length := length + offsets[i];
      cs := cs + [c];
      size := 2 * size;
      i := i + 1;
    }
    AheadDone(lastOne, i, size, max, counts);
  }

  /** The headers of one class. */
  method LayRow(was: map<nat, Hdr>, i: nat, base: nat, size: nat, n: nat, ghost row: seq<nat>)
    returns (hdr: map<nat, Hdr>)
    requires row == Row(base, HDR + size, n) && Distinct(row)
    ensures RowLaid(hdr, row, i)
    ensures forall b | b in was && b !in row :: b in hdr && hdr[b] == was[b]
    ensures forall b | b in hdr :: b in was || b in row
  {
    hide Row, Distinct;
    hdr := was;
    var j, step := 0, HDR + size;
    while j < n
      invariant j <= n
      invariant forall k | 0 <= k < j :: row[k] in hdr && hdr[row[k]] == Hdr(NextOf(row, k + 1), i, 0)
      invariant forall b | b in was && b !in row :: b in hdr && hdr[b] == was[b]
      invariant forall b | b in hdr :: b in was || b in row
    {
      var at := base + j * step;
      RowAt(base, step, n, j);
      var next := 0;
      if j != n - 1 {
        next := base + (j + 1) * step;
        RowAt(base, step, n, j + 1);
      }
      assert at == row[j] && next == NextOf(row, j + 1);
      NotRepeated(row, j);
      hdr := hdr[at := Hdr(next, i, 0)];
      j := j + 1;
    }
  }

  lemma {:induction false} NotRepeated(row: seq<nat>, j: nat)
    requires Distinct(row) && j < |row|
    ensures forall k | 0 <= k < j :: row[k] != row[j]
  {
  }

  lemma {:induction false} EndStep(base: nat, cs: seq<Class>, i: nat)
    requires i < |cs|
    ensures End(base, cs[..i + 1]) == End(base, cs[..i]) + Width(cs[i])
  {
    hide Width, End;
    EndAppend(base, cs[..i], cs[i]);
    assert cs[..i + 1] == cs[..i] + [cs[i]];
  }

  /** Where the row of class i begins. */
  lemma {:induction false} RowBase(base: nat, cs: seq<Class>, i: nat)
    requires i < |cs|
    ensures Rows(base, cs)[i] == Row(End(base, cs[..i]), HDR + cs[i].size, cs[i].count)
    decreases |cs|
  {
    hide Row, Width;
    if 0 < i {
      var tail := cs[1..];
      RowBase(base + Width(cs[0]), tail, i - 1);
      assert cs[..i][1..] == tail[..i - 1];
    }
  }

  /** The rows laid out so far, and the heads of their chains. */
  ghost predicate LaidUpTo(hdr: map<nat, Hdr>, pool: seq<nat>, rows: seq<seq<nat>>, n: nat) {
    && |pool| == n <= |rows|
    && (forall i | 0 <= i < n :: RowLaid(hdr, rows[i], i) && pool[i] == NextOf(rows[i], 0))
    && forall b | b in hdr :: hdr[b].sizeIndex < n && b in rows[hdr[b].sizeIndex]
  }

  lemma {:induction false} LaidOneMore(was: map<nat, Hdr>, hdr: map<nat, Hdr>, pool: seq<nat>, rows: seq<seq<nat>>,
                                       n: nat)
    requires LaidUpTo(was, pool, rows, n) && n < |rows| && RowsOk(rows) && RowLaid(hdr, rows[n], n)
    requires forall b | b in was && b !in rows[n] :: b in hdr && hdr[b] == was[b]
    requires forall b | b in hdr :: b in was || b in rows[n]
    ensures LaidUpTo(hdr, pool + [NextOf(rows[n], 0)], rows, n + 1)
  {
    forall i | 0 <= i < n ensures RowLaid(hdr, rows[i], i) {
      assert RowLaid(was, rows[i], i);
      assert forall b | b in rows[i] :: b !in rows[n];
      assert forall j | 0 <= j < |rows[i]| :: rows[i][j] in rows[i];
    }
  }

  /** The header loops of radBuffersInit. */
  method LayOut(cs: seq<Class>, offsets: seq<nat>) returns (pool: seq<nat>, hdr: map<nat, Hdr>)
    requires |cs| <= MAX_BFR_SIZES && |offsets| == |cs|
    requires forall i | 0 <= i < |cs| :: offsets[i] == Width(cs[i]) && 0 < cs[i].count
    ensures LaidUpTo(hdr, pool, AllRows(cs), |cs|)
  {
    hide RowLaid, RowsOk, Rows, Width, End, Row, Distinct, NextOf, LaidUpTo;
    ghost var rows := AllRows(cs);
    RowsAreOk(cs);
    pool, hdr := [], map[];
    LaidNone(rows);
    var i, tempInt := 0, SHARE;
    assert cs[..0] == [];
    EndNone();
    while i < |cs|
      invariant i <= |cs|
      invariant tempInt == if i == 0 then SHARE else End(SHARE, cs[..i - 1])
      invariant LaidUpTo(hdr, pool, rows, i)
    {
      if i != 0 {
        EndStep(SHARE, cs, i - 1);
        tempInt := tempInt + offsets[i - 1];
      }
      assert tempInt == End(SHARE, cs[..i]);
      RowBase(SHARE, cs, i);
      RowIsDistinct(rows, i);
      ghost var was := hdr;
      hdr := LayRow(hdr, i, tempInt, cs[i].size, cs[i].count, rows[i]);
      LaidOneMore(was, hdr, pool, rows, i);
      FirstOfRow(tempInt, HDR + cs[i].size, cs[i].count);
      pool := pool + [tempInt];
      i := i + 1;
    }
  }

  lemma {:induction false} LaidNone(rows: seq<seq<nat>>)
    ensures LaidUpTo(map[], [], rows, 0)
  {
  }

  lemma {:induction false} EndNone()
    ensures End(SHARE, []) == SHARE
  {
  }

  lemma {:induction false} RowIsDistinct(rows: seq<seq<nat>>, i: nat)
    requires RowsOk(rows) && i < |rows|
    ensures Distinct(rows[i]) && 0 !in rows[i]
  {
  }

  lemma {:induction false} FirstOfRow(base: nat, step: nat, n: nat)
    requires 0 < n
    ensures NextOf(Row(base, step, n), 0) == base
  {
  }

  /** The segment while it is shared: the pool record, the headers, and where each block is. */
  class Share {
    const length: nat
    var numSizes: nat
    var sizes: seq<nat>
    var count: seq<nat>
    var pool: seq<nat>
    var allocCount: nat
    var hdr: map<nat, Hdr>
    ghost var fly: map<nat, Phase>
    ghost var calls: Calls
    ghost const rows: seq<seq<nat>>
    ghost var chains: seq<seq<nat>>

    ghost function View(): State
      reads this
    {
      State(numSizes, sizes, count, pool, allocCount, hdr, fly, calls)
    }

    ghost predicate Valid()
      reads this
    {
      Inv(View(), rows, chains) && |rows| == MAX_BFR_SIZES
    }

    /** What radBuffersInit lays out. */
    constructor (minBufferSize: nat, maxBufferSize: nat, counts: seq<int>)
      requires |counts| == MAX_BFR_SIZES && 0 < maxBufferSize
      requires End(SHARE, Classes(0, Double(0x10, minBufferSize), maxBufferSize, counts)) < 0x8000_0000
      ensures var cs := Classes(0, Double(0x10, minBufferSize), maxBufferSize, counts);
        Fresh(View(), AllRows(cs)) && length == End(SHARE, cs) && rows == AllRows(cs)
      ensures Valid() && chains == rows && allocCount == 0
    {
      hide Inv, Classes, End, SizeTable, CountTable;
      var start := StartSize(minBufferSize);
      var cs, offsets, retVal := PlanSizes(start, maxBufferSize, counts);
      StartIsPositive(0x10, minBufferSize);
      ClassesDouble(0, start, maxBufferSize, counts);
      ClassesStop(0, start, maxBufferSize, counts);
      CountsArePositive(cs, counts);
      var heads, headers := LayOut(cs, offsets);
      length, allocCount, fly, calls := retVal, 0, map[], Calls(multiset{}, multiset{}, multiset{});
      numSizes, sizes, count := |cs|, SizeTable(cs), CountTable(cs);
      pool, hdr := PadTable(heads), headers;
      rows, chains := AllRows(cs), AllRows(cs);
      new;
      LaidIsAll(cs, headers, heads, pool);
      LaidOutIsFresh(View(), cs, maxBufferSize);
    }

    // ----- the steps -----

    /** The searches of radBufferGet. */
    method FindClass(size: int) returns (index: nat)
      requires |sizes| == |pool| == MAX_BFR_SIZES
      ensures index == Choose(sizes, pool, size)
    {
      index := 0;
      while index < MAX_BFR_SIZES && sizes[index] < Unsigned(size)
        invariant index <= MAX_BFR_SIZES
        invariant FirstFit(sizes, Unsigned(size), 0) == FirstFit(sizes, Unsigned(size), index)
      {
        index := index + 1;
      }
      while index < MAX_BFR_SIZES
        invariant index <= MAX_BFR_SIZES
        invariant Choose(sizes, pool, size) == FirstFilled(sizes, pool, index)
      {
        if sizes[index] == 0 {
          return MAX_BFR_SIZES;
        }
        if pool[index] != 0 {
          return;
        }
        index := index + 1;
      }
    }

    /** What radBufferGet does under the lock; 0 stands for NULL. */
    method PopLocked(size: int) returns (block: nat)
      requires Valid()
      modifies this`pool, this`allocCount, this`fly, this`calls, this`chains
      ensures Valid() && Sane(old(View()), Pop(size)) && View() == Step(old(View()), Pop(size))
      ensures chains == ChainsAfter(old(View()), old(chains), Pop(size))
      ensures var k := Choose(sizes, old(pool), size); block == if k == |old(pool)| then 0 else old(pool)[k]
    {
      hide Inv, Choose, Step;
      ghost var s := View();
      InvSizes(s, rows, chains);
      StepKeepsInv(s, rows, chains, Pop(size));
      var index := FindClass(size);
      StepPop(s, size, index);
      ghost var chains' := ChainsAfter(s, chains, Pop(size));
      block := 0;
      if index < MAX_BFR_SIZES {
        block := pool[index];
        pool := pool[index := hdr[block].next];
        allocCount := allocCount + 1;
        fly, calls := fly[block := Popped], calls.(popped := calls.popped + multiset{block});
      }
      chains := chains';
    }

    /** The flag that radBufferGet sets behind the lock. */
    method SetFlag(block: nat)
      requires Valid() && Allowed(View(), Flag(block))
      modifies this`hdr, this`fly, this`calls
      ensures Valid() && Sane(old(View()), Flag(block)) && View() == Step(old(View()), Flag(block))
    {
      hide Inv;
      StepKeepsInv(View(), rows, chains, Flag(block));
      hdr := hdr[block := hdr[block].(flag := 1)];
      fly, calls := fly[block := Held], calls.(popped := calls.popped - multiset{block});
    }

    /** The test of radBufferRls, outside the lock: it passes exactly for a block that is held,
        and leaves the segment sound unless another release of that block has passed it. */
    method TestFlag(block: nat) returns (ok: bool)
      requires Valid() && block in hdr
      modifies this`calls
      ensures (ok && block in old(calls).tested) || Valid()
      ensures Sane(old(View()), Test(block)) && View() == Step(old(View()), Test(block))
      ensures ok <==> Is(fly, block, Held)
      ensures calls == if ok then old(calls).(tested := old(calls).tested + multiset{block}) else old(calls)
    {
      hide Inv;
      StepIsSane(View(), rows, chains, Test(block));
      if Single(View(), Test(block)) {
        StepKeepsInv(View(), rows, chains, Test(block));
      }
      FlagOfBlock(View(), rows, chains, block);
      ok := hdr[block].flag == 1;
      if ok {
        calls := calls.(tested := calls.tested + multiset{block});
      }
    }

    /** The write of radBufferRls behind its test, outside the lock as well. */
    method StoreFlag(block: nat)
      requires Valid() && Allowed(View(), Store(block))
      modifies this`hdr, this`fly, this`calls
      ensures Valid() && Sane(old(View()), Store(block)) && View() == Step(old(View()), Store(block))
      ensures hdr.Keys == old(hdr.Keys) && fly == old(fly)[block := Cleared]
      ensures calls.cleared == old(calls).cleared + multiset{block}
        && calls.tested == old(calls).tested - multiset{block}
      ensures calls.popped == old(calls).popped
    {
      hide Inv;
      StepKeepsInv(View(), rows, chains, Store(block));
      hdr := hdr[block := hdr[block].(flag := 0)];
      fly := fly[block := Cleared];
      calls := calls.(tested := calls.tested - multiset{block}, cleared := calls.cleared + multiset{block});
    }

    /** What radBufferRls does under the lock. */
    method PushLocked(block: nat)
      requires Valid() && Allowed(View(), Push(block))
      modifies this`hdr, this`pool, this`fly, this`calls, this`chains
      ensures Valid() && Sane(old(View()), Push(block)) && View() == Step(old(View()), Push(block))
      ensures chains == ChainsAfter(old(View()), old(chains), Push(block))
    {
      hide Inv;
      InvSizes(View(), rows, chains);
      StepKeepsInv(View(), rows, chains, Push(block));
      ghost var chains' := ChainsAfter(View(), chains, Push(block));
      var k := hdr[block].sizeIndex;
      hdr := hdr[block := hdr[block].(next := pool[k])];
      pool := pool[k := block];
      fly, calls := fly - {block}, calls.(cleared := calls.cleared - multiset{block});
      chains := chains';
    }

    // ----- whole calls -----

    /** radBufferGet; 0 stands for NULL. The block is the first of the smallest class that is
        large enough and has one. */
    method Get(size: int) returns (block: nat)
      requires Valid() && -0x8000_0000 <= size < 0x8000_0000
      modifies this`hdr, this`pool, this`allocCount, this`fly, this`calls, this`chains
      ensures Valid() && calls == old(calls) && |sizes| == |chains| == |old(chains)| && numSizes <= |chains|
      ensures block == 0 <==> forall i | 0 <= i < numSizes && 0 <= size <= sizes[i] :: old(chains)[i] == []
      ensures block == 0 ==> View() == old(View()) && chains == old(chains)
      ensures block != 0 ==> exists k | 0 <= k < numSizes ::
        && 0 <= size <= sizes[k] && old(chains)[k] != [] && block == old(chains)[k][0]
        && chains == old(chains)[k := old(chains)[k][1..]]
        && forall i | 0 <= i < k && size <= sizes[i] :: old(chains)[i] == []
      ensures block != 0 ==> block !in old(fly) && fly == old(fly)[block := Held] && allocCount == old(allocCount) + 1
    {
      hide Inv, Choose, Step, Sane, Allowed, ChainsAfter;
      GetTakes(View(), rows, chains, size);
      GetFinds(View(), rows, chains, size);
      block := PopLocked(size);
      if block != 0 {
        FlagHolds(View(), block);
        SetFlag(block);
      }
    }

    /** radBufferRls of any block no other release is under way for: a held buffer goes to the
        front of its class's chain, any other is refused. */
    method Release(block: nat) returns (ok: bool)
      requires Valid() && block in hdr && block !in calls.tested
      modifies this`hdr, this`pool, this`fly, this`calls, this`chains
      ensures Valid() && calls == old(calls)
      ensures ok <==> Is(old(fly), block, Held)
      ensures !ok ==> View() == old(View()) && chains == old(chains)
      ensures ok ==> fly == old(fly) - {block}
      ensures ok ==> exists k | 0 <= k < |chains| ::
        && block in rows[k]
        && chains == old(chains)[k := [block] + old(chains)[k]]
    {
      hide Inv, Choose, Step, Sane, ChainsAfter;
      ok := TestFlag(block);
      if ok {
        ghost var was := calls.(tested := calls.tested - multiset{block});
        StoreFlag(block);
        assert calls.(cleared := calls.cleared - multiset{block}) == was;
        ClearedMayPush(View(), rows, chains, block);
        PushLocked(block);
      }
    }

    /** radBufferGetSizeAvail: the length of the class's chain. */
    method GetSizeAvail(sizeIndex: nat) returns (n: nat)
      requires Valid() && sizeIndex < MAX_BFR_SIZES
      ensures n == |chains[sizeIndex]|
    {
      ghost var c := chains[sizeIndex];
      assert ClassOk(View(), sizeIndex, rows[sizeIndex], c);
      hide RowsOk, TablesOk, ClassOk, Inv;
      if pool[sizeIndex] == 0 {
        return 0;
      }
      var at := pool[sizeIndex];
      n := 1;
      while hdr[at].next != 0
        invariant Chain(hdr, at, c) && at != 0 && n + |c| == |chains[sizeIndex]| + 1
        decreases |c|
      {
        n := n + 1;
        c := c[1..];
        at := hdr[at].next;
      }
    }

    /** radBuffersGetTotal. */
    method GetTotal() returns (sum: nat)
      requires Valid()
      ensures sum == TotalOf(rows)
    {
      sum := 0;
      var i := 0;
      assert rows[0..] == rows;
      while i < numSizes
        invariant i <= numSizes && sum + TotalOf(rows[i..]) == TotalOf(rows)
      {
        assert rows[i..][1..] == rows[i + 1..];
        sum := sum + count[i];
        i := i + 1;
      }
      EmptyRows(rows[i..]);
    }

    /** radBuffersGetAvailable, with no other process at work. */
    method GetAvailable() returns (sum: nat)
      requires Valid()
      ensures sum == TotalOf(chains)
    {
      hide ClassOk, RowsOk;
      sum := 0;
      var i := 0;
      assert chains[0..] == chains;
      while i < numSizes
        invariant i <= numSizes && sum + TotalOf(chains[i..]) == TotalOf(chains)
      {
        assert chains[i..][1..] == chains[i + 1..];
        var n := GetSizeAvail(i);
        sum := sum + n;
        i := i + 1;
      }
      UnusedChains(View(), rows, chains);
      EmptyRows(chains[i..]);
    }
  }

  /** radBuffersInit where there is no segment yet; without a maximum size it only attaches to
      one, which is an error then. */
  method Init(minBufferSize: nat, maxBufferSize: int, counts: seq<int>) returns (share: Share?)
    requires |counts| == MAX_BFR_SIZES
    requires 0 < maxBufferSize ==>
      End(SHARE, Classes(0, Double(0x10, minBufferSize), maxBufferSize, counts)) < 0x8000_0000
    ensures share == null <==> maxBufferSize <= 0
    ensures share != null ==>
      && fresh(share) && share.Valid() && share.chains == share.rows && share.allocCount == 0
      && var cs := Classes(0, Double(0x10, minBufferSize), maxBufferSize, counts);
      Fresh(share.View(), AllRows(cs)) && share.length == End(SHARE, cs) && share.rows == AllRows(cs)
  {
    if maxBufferSize <= 0 {
      return null;
    }
    share := new Share(minBufferSize, maxBufferSize, counts);
  }

  lemma {:induction false} GetFinds(s: State, rows: seq<seq<nat>>, chains: seq<seq<nat>>, size: int)
    requires Inv(s, rows, chains)
    ensures var k := Choose(s.sizes, s.pool, size);
      && Sane(s, Pop(size)) && |s.pool| == |rows| && (k == |s.pool| ==> Step(s, Pop(size)) == s)
      && (k < |s.pool| ==>
            var t := Step(s, Pop(size));
            && Allowed(t, Flag(s.pool[k])) && s.pool[k] !in s.fly && t.fly == s.fly[s.pool[k] := Popped]
            && t.allocCount == s.allocCount + 1
            && t.calls == s.calls.(popped := s.calls.popped + multiset{s.pool[k]}))
  {
    var k := Choose(s.sizes, s.pool, size);
    StepIsSane(s, rows, chains, Pop(size));
    if k < |s.pool| { PopFinds(s, rows, chains, k); }
  }

  lemma {:induction false} FlagHolds(s: State, b: nat)
    requires Allowed(s, Flag(b))
    ensures Sane(s, Flag(b)) ==>
      && Step(s, Flag(b)).fly == s.fly[b := Held]
      && Step(s, Flag(b)).calls == s.calls.(popped := s.calls.popped - multiset{b})
  {
  }

  lemma {:induction false} ClearedMayPush(s: State, rows: seq<seq<nat>>, chains: seq<seq<nat>>, b: nat)
    requires Inv(s, rows, chains) && b in s.calls.cleared
    ensures Allowed(s, Push(b)) && Sane(s, Push(b)) && |chains| == |s.pool| == |rows|
    ensures Step(s, Push(b)).fly == s.fly - {b}
    ensures Step(s, Push(b)).calls == s.calls.(cleared := s.calls.cleared - multiset{b})
    ensures exists k | 0 <= k < |chains| ::
      && b in rows[k]
      && ChainsAfter(s, chains, Push(b)) == chains[k := [b] + chains[k]]
  {
    StepIsSane(s, rows, chains, Push(b));
    assert b in rows[s.hdr[b].sizeIndex];
  }

  lemma {:induction false} UnusedChains(s: State, rows: seq<seq<nat>>, chains: seq<seq<nat>>)
    requires Inv(s, rows, chains)
    ensures |chains| == |rows| && forall k | s.numSizes <= k < |chains| :: chains[k] == []
  {
    forall k | s.numSizes <= k < |chains| ensures chains[k] == [] {
      EmptyClass(s, k, rows[k], chains[k]);
    }
  }

  lemma {:induction false} EmptyClass(s: State, k: nat, row: seq<nat>, c: seq<nat>)
    requires k < |s.pool| && ClassOk(s, k, row, c)
    ensures |c| != 0 ==> |row| != 0
  {
    assert forall j | 0 <= j < |c| :: c[j] in row;
  }

  lemma {:induction false} EmptyRows(rows: seq<seq<nat>>)
    requires forall i | 0 <= i < |rows| :: rows[i] == []
    ensures TotalOf(rows) == 0
  {
    if rows != [] { EmptyRows(rows[1..]); }
  }

  lemma {:induction false} StepPop(s: State, size: int, k: nat)
    requires Sane(s, Pop(size)) && k == Choose(s.sizes, s.pool, size)
    ensures Step(s, Pop(size)) ==
      if k == |s.pool| then s
      else s.(pool := s.pool[k := s.hdr[s.pool[k]].next], allocCount := s.allocCount + 1,
              fly := s.fly[s.pool[k] := Popped], calls := s.calls.(popped := s.calls.popped + multiset{s.pool[k]}))
  {
  }

  function PadTable(heads: seq<nat>): (t: seq<nat>)
    requires |heads| <= MAX_BFR_SIZES
    ensures |t| == MAX_BFR_SIZES && forall i | 0 <= i < MAX_BFR_SIZES :: t[i] == if i < |heads| then heads[i] else 0
  {
    seq(MAX_BFR_SIZES, i requires 0 <= i < MAX_BFR_SIZES => if i < |heads| then heads[i] else 0)
  }

  lemma {:induction false} StartIsPositive(t: nat, min: nat)
    requires 0 < t
    ensures 0 < Double(t, min)
    decreases min - t
  {
    if t < min { StartIsPositive(2 * t, min); }
  }

  lemma {:induction false} CountsArePositive(cs: seq<Class>, counts: seq<int>)
    requires |cs| <= MAX_BFR_SIZES == |counts| && Counted(cs, 0, counts)
    ensures forall i | 0 <= i < |cs| :: 0 < cs[i].count
  {
    forall i | 0 <= i < |cs| ensures 0 < cs[i].count {
      assert counts[i] > 0 && cs[i - 0].count == counts[i];
    }
  }

  lemma {:induction false} LaidIsAll(cs: seq<Class>, hdr: map<nat, Hdr>, heads: seq<nat>, pool: seq<nat>)
    requires |cs| <= MAX_BFR_SIZES && LaidUpTo(hdr, heads, AllRows(cs), |cs|) && pool == PadTable(heads)
    ensures forall i | 0 <= i < MAX_BFR_SIZES :: pool[i] == NextOf(AllRows(cs)[i], 0) && RowLaid(hdr, AllRows(cs)[i], i)
    ensures forall b | b in hdr :: hdr[b].sizeIndex < |cs| && b in AllRows(cs)[hdr[b].sizeIndex]
  {
  }
}
