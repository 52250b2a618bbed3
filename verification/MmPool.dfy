/** The pool of mm_alloc.c: one segment of bytes in which everything is kept, the list of
    free chunks included. `live` is ghost; it names the blocks handed out so far.
    Locking always succeeds here and the pool is used by one process at a time. */
module MmPool {
  import opened Words
  import opened MmFreeList
  import opened MmCore
  import opened MmSpec
  import opened MmLayout
  import opened MmSurgery
  import opened MmCases
  import opened MmClients
  import opened MmLaws
  import opened Wrappers

  ghost predicate IsFreeChunk(free: seq<Chunk>, at: nat) {
    exists i :: 0 <= i < |free| && free[i].at == at
  }

  /** `k` free chunks have been passed; none of the others lies below `at`. */
  ghost predicate Passed(free: seq<Chunk>, at: nat, k: nat) {
    && k <= |free|
    && (forall t | 0 <= t < k :: free[t].at < at)
    && (k < |free| ==> at <= free[k].at)
  }

  /** What mm_insert_chunk reads once its search has passed `k` free chunks. */
  lemma {:induction false} Reads(w: Memory, size: nat, live: seq<Block>, free: seq<Chunk>, c: Chunk, k: nat, prev: nat,
                                 next: nat)
    requires Holds(w, size, live) && free == FreeList(live)
    requires HasBlock(live, c.at) && c.size == BlockAt(live, c.at).size
    requires Passed(free, c.at, k) && prev == Node(free, k) && next == Link(free, k)
    ensures Freeing(w, size, live, c, k) && k <= |free|
    ensures w(c.at) == c.size && c.at + c.size <= Offset(live) == w(MP_OFFSET) <= size < WORD_LIMIT
    ensures w(COUNT) == |free| && |free| < size
    ensures SIZEOF_MEM_POOL <= c.at && MIN_CHUNK <= c.size
    ensures c.End() == Offset(live) <==> c.at + c.size == w(MP_OFFSET)
    ensures MP_FREECHUNKS <= prev && prev + MIN_CHUNK <= c.at
    ensures After(free, c, k) <==> prev + w(prev) == c.at
    ensures k < |free| <==> next != 0
    ensures k < |free| ==> next == free[k].at && w(next) == free[k].size && w(next + MC_NEXT) == Link(free, k + 1)
    ensures k < |free| ==> next + w(next) <= size && c.at + c.size <= next
    ensures k < |free| ==> (c.End() == free[k].at <==> c.at + c.size == next)
  {
    hide BlockAt, HasBlock, Gaps, Top, Placed;
    FreeFacts(size, live);
    assert BlockAt(live, c.at) in live;
    LiesApart(live, free, c, size);
    ReadPrev(w, free, c, k, prev);
    if k < |free| {
      ReadNext(w, free, k);
    }
    CountBelowSize(free, size);
  }

  lemma {:induction false} LiesApart(live: seq<Block>, free: seq<Chunk>, c: Chunk, size: nat)
    requires Disjoint(free, live) && Within(free, SIZEOF_MEM_POOL, size) && HasBlock(live, c.at)
      && c.size == BlockAt(live, c.at).size
    requires MIN_CHUNK <= c.size
    ensures forall t | 0 <= t < |free| :: SIZEOF_MEM_POOL <= free[t].at && free[t].End() <= size
    ensures forall t | 0 <= t < |free| :: free[t].End() <= c.at || c.End() <= free[t].at
    ensures forall t | 0 <= t < |free| :: free[t].at != c.at
  {
    assert forall t | 0 <= t < |free| :: free[t] in free;
    assert BlockAt(live, c.at) in live;
  }

  lemma {:induction false} ReadPrev(w: Memory, free: seq<Chunk>, c: Chunk, k: nat, prev: nat)
    requires Chain(w, free) && Spread(free) && w(MP_FREECHUNKS) == 0 && SIZEOF_MEM_POOL <= c.at && MIN_CHUNK <= c.size
    requires k <= |free| && (forall t | 0 <= t < k :: free[t].End() <= c.at) && prev == Node(free, k)
    ensures MP_FREECHUNKS <= prev && prev + MIN_CHUNK <= c.at
    ensures After(free, c, k) <==> prev + w(prev) == c.at
  {
  }

  lemma {:induction false} ReadNext(w: Memory, free: seq<Chunk>, k: nat)
    requires Chain(w, free) && k < |free|
    ensures w(free[k].at) == free[k].size && w(free[k].at + MC_NEXT) == Link(free, k + 1)
  {
    assert Node(free, k + 1) == free[k].at;
  }

  lemma {:induction false} CountBelowSize(free: seq<Chunk>, size: nat)
    requires Spread(free) && SIZEOF_MEM_POOL <= size && forall t | 0 <= t < |free| :: free[t].End() <= size
    ensures |free| < size
  {
    if free != [] {
      ChunkRank(free, |free| - 1);
    }
  }

  lemma {:induction false} ChunkRank(free: seq<Chunk>, t: nat)
    requires Spread(free) && t < |free|
    ensures SIZEOF_MEM_POOL + t <= free[t].at
  {
    if 0 < t {
      ChunkRank(free, t - 1);
    }
  }

  /** The node before node `k`, or the sentinel itself. */
  function NodeBefore(free: seq<Chunk>, k: nat): nat
    requires k <= |free|
  {
    if k <= 1 then MP_FREECHUNKS else free[k - 2].at
  }

  /** The previous chunk, when there is one: free chunk `i`. */
  lemma {:induction false} PrevChunk(w: Memory, size: nat, live: seq<Block>, free: seq<Chunk>, c: Chunk, k: nat,
                                     prevPrev: nat, prev: nat) returns (i: nat)
    requires Freeing(w, size, live, c, k) && After(free, c, k) && free == FreeList(live)
    requires prev == Node(free, k) && prevPrev == NodeBefore(free, k)
    ensures k == i + 1 && Freeing(w, size, live, c, i + 1) && After(free, c, i + 1)
    ensures prev == free[i].at && w(prev) == free[i].size && prevPrev == Node(free, i)
    ensures MP_FREECHUNKS <= prevPrev && prevPrev + MIN_CHUNK <= prev && MIN_CHUNK <= w(prev)
  {
    hide BlockAt, HasBlock, Gaps, Top, Placed;
    i := k - 1;
    FreeFacts(size, live);
    assert Node(free, k) == free[i].at;
    if 0 < i { assert free[i - 1].End() < free[i].at; }
  }

  lemma {:induction false} KnownToBeFree(live: seq<Block>, at: nat, k: nat)
    requires Placed(live, SIZEOF_MEM_POOL) && k <= |FreeList(live)|
    requires HasBlock(live, at) || IsFreeChunk(FreeList(live), at)
    requires Passed(FreeList(live), at, k)
    requires Node(FreeList(live), k) == at || Link(FreeList(live), k) == at
    ensures !HasBlock(live, at)
  {
    GapShape(live, SIZEOF_MEM_POOL);
    LiveShape(live, SIZEOF_MEM_POOL);
    assert forall t | 0 <= t < |FreeList(live)| :: FreeList(live)[t] in FreeList(live);
    assert HasBlock(live, at) ==> BlockAt(live, at) in live;
  }

  lemma {:induction false} NotInList(live: seq<Block>, at: nat, k: nat)
    requires Placed(live, SIZEOF_MEM_POOL) && k <= |FreeList(live)|
    requires HasBlock(live, at) || IsFreeChunk(FreeList(live), at)
    requires Passed(FreeList(live), at, k) && Link(FreeList(live), k) != at
    ensures HasBlock(live, at)
  {
    GapsApart(live, SIZEOF_MEM_POOL);
  }

  lemma {:induction false} PoolFacts(m: seq<Byte>, live: seq<Block>)
    requires Encodes(m, live)
    ensures SIZEOF_MEM_POOL <= |m| && PoolInv(|m|, live) && Placed(live, SIZEOF_MEM_POOL)
    ensures Holds(View(m), |m|, live) && Chain(View(m), FreeList(live)) && Spread(FreeList(live))
  {
    FreeFacts(|m|, live);
  }

  lemma {:induction false} HoldsIsValid(m: seq<Byte>, live: seq<Block>)
    requires Holds(View(m), |m|, live)
    ensures Encodes(m, live) && PoolInv(|m|, live)
  {
  }

  /** Every free chunk is smaller than the pool. */
  lemma {:induction false} SizesBelow(m: seq<Byte>, live: seq<Block>)
    requires Encodes(m, live)
    ensures View(m)(MP_SIZE) == |m|
    ensures forall t | 0 <= t < |FreeList(live)| :: 0 < FreeList(live)[t].at && FreeList(live)[t].size < |m|
  {
    FreeFacts(|m|, live);
    assert forall t | 0 <= t < |FreeList(live)| :: FreeList(live)[t] in FreeList(live);
  }

  lemma {:induction false} BestFitStep(free: seq<Chunk>, size: nat, n: nat, r: int)
    requires n < |free| && r == BestFit(free[..n], size)
    ensures BestFit(free[..n + 1], size) ==
      if free[n].size >= size && (r < 0 || free[n].size < free[r].size) then n else r
  {
    assert free[..n + 1][..n] == free[..n];
  }

  /** What mm_retrieve_chunk reads of the chunk it picked. */
  lemma {:induction false} TakenFits(chunk: nat, at: nat, usize: nat)
    requires Need(usize) <= chunk && chunk % 8 == 0 && 0 < usize
    ensures var n := Taken(chunk, Need(usize));
      Fits(Block(at, n, usize)) && (n == chunk || (n == Need(usize) && n + MIN_CHUNK <= chunk))
  {
    NeedFits(usize);
  }

  lemma {:induction false} RetrieveFacts(w: Memory, size: nat, live: seq<Block>, free: seq<Chunk>, k: nat, usize: nat)
    requires Holds(w, size, live) && free == FreeList(live) && 0 < usize
    requires k < |free| && k == BestFit(free, Need(usize))
    ensures w(Node(free, k) + MC_NEXT) == free[k].at && w(free[k].at) == free[k].size
      && w(free[k].at + MC_NEXT) == Link(free, k + 1)
    ensures w(COUNT) == |free| && SIZEOF_MEM_POOL <= free[k].at && free[k].at + free[k].size <= size
    ensures Node(free, k) + MC_NEXT + 4 <= size
    ensures var n := Taken(free[k].size, Need(usize));
      Fits(Block(free[k].at, n, usize)) && (n == free[k].size || (n == Need(usize) && n + MIN_CHUNK <= free[k].size))
  {
    hide BlockAt, HasBlock, Gaps, Top, Placed, BestFit;
    FreeFacts(size, live);
    assert free[k] in free;
    BestFitIsFirstMinimal(free, Need(usize));
    TakenFits(free[k].size, free[k].at, usize);
    ReadNext(w, free, k);
    NodeOfSpread(free, k);
  }

  lemma {:induction false} ReservedFits(w: Memory, size: nat, live: seq<Block>, b: Block)
    requires Reserved(w, size, live, b)
    ensures b.at + MC_USIZE + 4 <= size && b.usize < WORD_LIMIT
  {
    LiveShape(Insert(live, b), SIZEOF_MEM_POOL);
  }

  lemma {:induction false} BlockBounds(m: seq<Byte>, live: seq<Block>, at: nat)
    requires Encodes(m, live) && HasBlock(live, at)
    ensures var b := BlockAt(live, at);
      && SIZEOF_MEM_POOL <= at && b.End() <= |m| < WORD_LIMIT && 0 < b.usize && SIZEOF_MEM_CHUNK + b.usize <= b.size
        && MIN_CHUNK <= b.size
      && View(m)(at) == b.size && View(m)(at + MC_USIZE) == b.usize
  {
    LiveShape(live, SIZEOF_MEM_POOL);
  }

  /** Freeing a block keeps every other one. */
  lemma {:induction false} OthersStay(live: seq<Block>, at: nat)
    ensures forall c | c in live && c.at != at :: c in Remove(live, at)
  {
    if live != [] && live[0].at != at {
      OthersStay(live[1..], at);
    }
  }

  lemma {:induction false} RemovedAddress(live: seq<Block>, from: nat, at: nat)
    requires Placed(live, from)
    ensures forall c | c in Remove(live, at) :: c in live && c.at != at
  {
    if live != [] {
      LiveShape(live[1..], live[0].End());
      if live[0].at != at {
        RemovedAddress(live[1..], live[0].End(), at);
      }
    }
  }

  lemma {:induction false} EncodesPool(m: seq<Byte>, live: seq<Block>)
    requires Encodes(m, live)
    ensures PoolInv(|m|, live)
  {
  }

  lemma {:induction false} KeptSame(m: seq<Byte>, live: seq<Block>)
    ensures BlocksKept(m, m, live)
  {
  }

  /** Blocks kept by two steps in a row are kept. */
  lemma {:induction false} KeptTwice(m0: seq<Byte>, m1: seq<Byte>, m2: seq<Byte>, first: seq<Block>, second: seq<Block>,
                                     rest: seq<Block>)
    requires BlocksKept(m0, m1, first) && BlocksKept(m1, m2, second)
    requires forall c | c in rest :: c in first && c in second
    ensures BlocksKept(m0, m2, rest)
  {
  }

  /** What surviving of a block and its neighbours means for the move of mm_realloc. */
  lemma {:induction false} MovedBlocks(size: nat, was: seq<Block>, b: Block, at: nat)
    requires PoolInv(size, was) && PoolInv(size, Insert(was, b)) && HasBlock(was, at) && !HasBlock(was, b.at)
    ensures HasBlock(Insert(was, b), at) && b.at != at
    ensures b in Remove(Insert(was, b), at)
    ensures forall c | c in Remove(was, at) :: c in was && c in Remove(Insert(was, b), at)
  {
    InsertKeepsBlock(was, b, at);
    InsertMembers(was, b);
    OthersStay(Insert(was, b), at);
    RemovedAddress(was, SIZEOF_MEM_POOL, at);
  }

  /** The `n` user bytes at `ptr` are now at `vp`. */
  ghost predicate Survives(m: seq<Byte>, m': seq<Byte>, ptr: nat, vp: nat, n: nat) {
    |m'| == |m| && ptr + n <= |m| && vp + n <= |m| && m'[vp..vp + n] == m[ptr..ptr + n]
  }

  lemma {:induction false} SliceSurvives(m: seq<Byte>, m': seq<Byte>, a: nat, b: nat, n: nat)
    requires |m'| == |m| && a + n <= |m| && b + n <= |m| && m'[b..b + n] == m[a..a + n]
    ensures Survives(m, m', a, b, n)
  {
  }

  lemma {:induction false} SurvivesTwice(m0: seq<Byte>, m1: seq<Byte>, m2: seq<Byte>, a: nat, b: nat, c: nat, n: nat)
    requires Survives(m0, m1, a, b, n) && Survives(m1, m2, b, c, n)
    ensures Survives(m0, m2, a, c, n)
  {
  }

  lemma {:induction false} StretchSurvives(m: seq<Byte>, m': seq<Byte>, ptr: nat, n: nat)
    requires |m'| == |m| && ptr + n <= |m| && forall k | ptr <= k < ptr + n :: m'[k] == m[k]
    ensures Survives(m, m', ptr, ptr, n)
  {
  }

  /** What the move of mm_realloc finds once mm_malloc has succeeded. */
  lemma {:induction false} ReadyToMove(m: seq<Byte>, m': seq<Byte>, was: seq<Block>, b: Block, at: nat, usize: nat)
    requires Encodes(m, was) && HasBlock(was, at) && BlocksKept(m, m', was)
    requires MmSpec.Malloc(|m|, was, usize) == Some(b) && BlockAt(was, at).usize < usize
    ensures !HasBlock(was, b.at) && Fits(b) && b.usize == usize && b in Insert(was, b)
    ensures forall c | c in was :: b.End() <= c.at || c.End() <= b.at
    ensures View(m')(at + MC_USIZE) == BlockAt(was, at).usize
    ensures Survives(m, m', at + SIZEOF_MEM_CHUNK, at + SIZEOF_MEM_CHUNK, BlockAt(was, at).usize)
  {
    var c := BlockAt(was, at);
    MallocFits(|m|, was, usize);
    MallocIsFresh(|m|, was, usize);
    InsertMembers(was, b);
    KeptUsize(m, m', was, c);
  }

  lemma {:induction false} KeptUsize(m: seq<Byte>, m': seq<Byte>, was: seq<Block>, c: Block)
    requires Encodes(m, was) && c in was && BlocksKept(m, m', was)
    ensures View(m')(c.at + MC_USIZE) == c.usize
    ensures Survives(m, m', c.at + SIZEOF_MEM_CHUNK, c.at + SIZEOF_MEM_CHUNK, c.usize)
  {
    LiveShape(was, SIZEOF_MEM_POOL);
    var a := c.at + MC_USIZE;
    assert forall k | c.at <= k < c.End() :: m'[k] == m[k];
    assert m'[a] == m[a] && m'[a + 1] == m[a + 1] && m'[a + 2] == m[a + 2] && m'[a + 3] == m[a + 3];
    assert View(m)(a) == c.usize;
  }

  lemma {:induction false} MoveFacts(m: seq<Byte>, was: seq<Block>, b: Block, at: nat, n: nat)
    requires Encodes(m, Insert(was, b)) && PoolInv(|m|, was) && HasBlock(was, at) && Fits(b) && b in Insert(was, b)
    requires forall c | c in was :: b.End() <= c.at || c.End() <= b.at
    requires n == BlockAt(was, at).usize <= b.usize
    ensures b.End() <= |m| && SIZEOF_MEM_CHUNK + b.usize <= b.size && PoolInv(|m|, Insert(was, b))
    ensures at + SIZEOF_MEM_CHUNK + n <= |m| && b.at + SIZEOF_MEM_CHUNK + n <= b.End()
    ensures b.End() <= at || at + SIZEOF_MEM_CHUNK + n <= b.at
  {
    LiveShape(was, SIZEOF_MEM_POOL);
    LiveShape(Insert(was, b), SIZEOF_MEM_POOL);
    assert BlockAt(was, at) in was;
  }

  lemma {:induction false} BlockSurvives(m: seq<Byte>, m': seq<Byte>, live: seq<Block>, b: Block, n: nat)
    requires BlocksKept(m, m', live) && b in live && b.End() <= |m| && SIZEOF_MEM_CHUNK + n <= b.size
    ensures Survives(m, m', b.at + SIZEOF_MEM_CHUNK, b.at + SIZEOF_MEM_CHUNK, n)
  {
    assert forall k | b.at <= k < b.End() :: m'[k] == m[k];
  }

  lemma {:induction false} EncodesHolds(m: seq<Byte>, live: seq<Block>)
    requires Encodes(m, live)
    ensures Holds(View(m), |m|, live)
  {
  }

  class Pool {
    const mem: array<Byte>
    ghost var live: seq<Block>

    ghost predicate Valid()
      reads this, mem
    {
      Encodes(mem[..], live)
    }

    /** The word at `a`. */
    function Get(a: nat): (v: nat)
      reads mem
      ensures v == View(mem[..])(a) && v < WORD_LIMIT
    {
      Load(mem[..], a)
    }

    /** Stores a word; `w` and `w'` name the words before and after. */
    method Put(a: nat, v: nat, ghost w: Memory) returns (ghost w': Memory)
      requires a + 4 <= mem.Length && v < WORD_LIMIT && w == View(mem[..])
      modifies mem
      ensures w' == View(mem[..]) && Stored(w, w', a, v)
    {
      ghost var m := mem[..];
      mem[a] := v % 0x100;
      mem[a + 1] := v / 0x100 % 0x100;
      mem[a + 2] := v / 0x1_0000 % 0x100;
      mem[a + 3] := v / 0x100_0000;
      assert mem[..] == Store(m, a, v);
      StoreStores(m, a, v);
      w' := View(mem[..]);
    }

    /** The search of mm_insert_chunk: where `mcInsert` belongs in the list. */
    method FindPlace(mcInsert: nat) returns (mcPrevPrev: nat, mcPrev: nat, mcNext: nat, ghost k: nat)
      requires SIZEOF_MEM_POOL <= mem.Length && Chain(View(mem[..]), FreeList(live)) && Spread(FreeList(live))
      ensures var free := FreeList(live);
        && k <= |free| && mcPrev == Node(free, k) && mcNext == Link(free, k)
        && mcPrevPrev == NodeBefore(free, k)
        && Passed(free, mcInsert, k)
    {
      ghost var w, free := View(mem[..]), FreeList(live);
      mcPrev, mcPrevPrev, k := MP_FREECHUNKS, MP_FREECHUNKS, 0;
      mcNext := Get(mcPrev + MC_NEXT);
      assert w(Node(free, 0) + MC_NEXT) == Link(free, 0);
      while mcNext != 0 && mcNext < mcInsert
        invariant k <= |free| && mcPrev == Node(free, k) && mcNext == Link(free, k)
        invariant mcPrevPrev == NodeBefore(free, k)
        invariant forall t | 0 <= t < k :: free[t].at < mcInsert
        decreases |free| - k
      {
        mcPrevPrev := mcPrev;
        mcPrev := mcNext;
        k := k + 1;
        assert w(Node(free, k) + MC_NEXT) == Link(free, k);
        mcNext := Get(mcPrev + MC_NEXT);
      }
    }

    // ----- the writes of the six cases of mm_insert_chunk -----

    ghost predicate Ready(w: Memory, was: seq<Block>, free: seq<Chunk>, c: Chunk, k: nat)
      reads mem
    {
      && w == View(mem[..]) && SIZEOF_MEM_POOL <= mem.Length < WORD_LIMIT
      && Freeing(w, mem.Length, was, c, k) && free == FreeList(was)
    }

    ghost predicate Done(w: Memory, rest: seq<Block>)
      reads mem
    {
      Holds(View(mem[..]), mem.Length, rest) && WordsKept(w, View(mem[..]), rest)
    }

    method PutMergeBoth(mcPrev: nat, size: nat, nextNext: nat, count: nat, ghost w: Memory, ghost was: seq<Block>,
                        ghost free: seq<Chunk>, ghost c: Chunk, ghost i: nat, ghost rest: seq<Block>)
      requires Ready(w, was, free, c, i + 1) && rest == Remove(was, c.at) && After(free, c, i + 1)
      requires i + 1 < |free| && c.End() == free[i + 1].at && mcPrev == free[i].at
      requires size == free[i].size + c.size + free[i + 1].size && nextNext == Link(free, i + 2) && count == |free| - 1
      requires mcPrev + 12 <= mem.Length && size < WORD_LIMIT && nextNext < WORD_LIMIT && count < WORD_LIMIT
      modifies mem
      ensures Done(w, rest)
    {
      assert MC_NEXT == 8 && COUNT == 12 && SIZEOF_MEM_POOL == 24;
      assert w == View(mem[..]) && Freeing(w, mem.Length, was, c, i + 1) && free == FreeList(was)
        && 24 <= mem.Length < WORD_LIMIT;
      hide *;
      ghost var w1 := Put(mcPrev, size, w);
      ghost var w2 := Put(mcPrev + MC_NEXT, nextNext, w1);
      ghost var w3 := Put(COUNT, count, w2);
      FreeMergeBoth(w, w1, w2, w3, mem.Length, was, free, c, i, Chunk(mcPrev, size), nextNext, count, rest);
    }

    method PutMergePrevSpare(mcPrevPrev: nat, mcNext: nat, offset: nat, count: nat, ghost w: Memory,
                             ghost was: seq<Block>, ghost free: seq<Chunk>, ghost c: Chunk, ghost i: nat,
                             ghost rest: seq<Block>)
      requires Ready(w, was, free, c, i + 1) && rest == Remove(was, c.at) && After(free, c, i + 1)
      requires c.End() == Offset(was) && offset == free[i].at
      requires mcPrevPrev == Node(free, i) && mcNext == Link(free, i + 1) && count == |free| - 1
      requires mcPrevPrev + 12 <= mem.Length && mcNext < WORD_LIMIT && offset < WORD_LIMIT && count < WORD_LIMIT
      modifies mem
      ensures Done(w, rest)
    {
      assert MC_NEXT == 8 && COUNT == 12 && MP_OFFSET == 4 && SIZEOF_MEM_POOL == 24;
      assert w == View(mem[..]) && Freeing(w, mem.Length, was, c, i + 1) && free == FreeList(was)
        && 24 <= mem.Length < WORD_LIMIT;
      hide *;
      ghost var w1 := Put(mcPrevPrev + MC_NEXT, mcNext, w);
      ghost var w2 := Put(MP_OFFSET, offset, w1);
      ghost var w3 := Put(COUNT, count, w2);
      FreeMergePrevSpare(w, w1, w2, w3, mem.Length, was, free, c, i, mcPrevPrev + MC_NEXT, mcNext, offset, count, rest);
    }

    method PutMergePrev(mcPrev: nat, size: nat, ghost w: Memory, ghost was: seq<Block>, ghost free: seq<Chunk>,
                        ghost c: Chunk, ghost i: nat, ghost rest: seq<Block>)
      requires Ready(w, was, free, c, i + 1) && rest == Remove(was, c.at) && After(free, c, i + 1)
      requires c.End() != Offset(was) && !(i + 1 < |free| && c.End() == free[i + 1].at)
      requires mcPrev == free[i].at && size == free[i].size + c.size
      requires mcPrev + 12 <= mem.Length && size < WORD_LIMIT
      modifies mem
      ensures Done(w, rest)
    {
      assert w == View(mem[..]) && Freeing(w, mem.Length, was, c, i + 1) && free == FreeList(was)
        && 24 <= mem.Length < WORD_LIMIT;
      hide *;
      ghost var w1 := Put(mcPrev, size, w);
      FreeMergePrev(w, w1, mem.Length, was, free, c, i, Chunk(mcPrev, size), rest);
    }

    method PutMergeNext(mcPrev: nat, mcInsert: nat, size: nat, nextNext: nat, ghost w: Memory, ghost was: seq<Block>,
                        ghost free: seq<Chunk>, ghost c: Chunk, ghost k: nat, ghost rest: seq<Block>)
      requires Ready(w, was, free, c, k) && rest == Remove(was, c.at) && !After(free, c, k) && k < |free|
        && c.End() == free[k].at
      requires mcInsert == c.at && mcPrev == Node(free, k) && size == c.size + free[k].size
        && nextNext == Link(free, k + 1)
      requires mcPrev + 12 <= mem.Length && mcInsert + 12 <= mem.Length && size < WORD_LIMIT && nextNext < WORD_LIMIT
      modifies mem
      ensures Done(w, rest)
    {
      assert MC_NEXT == 8;
      assert w == View(mem[..]) && Freeing(w, mem.Length, was, c, k) && free == FreeList(was)
        && 24 <= mem.Length < WORD_LIMIT;
      hide *;
      ghost var w1 := Put(mcInsert, size, w);
      ghost var w2 := Put(mcInsert + MC_NEXT, nextNext, w1);
      ghost var w3 := Put(mcPrev + MC_NEXT, mcInsert, w2);
      FreeMergeNext(w, w1, w2, w3, mem.Length, was, free, c, k, Chunk(mcInsert, size), mcPrev + MC_NEXT, nextNext,
        rest);
    }

    method PutMergeSpare(offset: nat, ghost w: Memory, ghost was: seq<Block>, ghost free: seq<Chunk>, ghost c: Chunk,
                         ghost k: nat, ghost rest: seq<Block>)
      requires Ready(w, was, free, c, k) && rest == Remove(was, c.at) && !After(free, c, k) && c.End() == Offset(was)
        && offset == c.at < WORD_LIMIT
      modifies mem
      ensures Done(w, rest)
    {
      assert MP_OFFSET == 4 && SIZEOF_MEM_POOL == 24;
      assert w == View(mem[..]) && Freeing(w, mem.Length, was, c, k) && free == FreeList(was)
        && 24 <= mem.Length < WORD_LIMIT;
      hide *;
      ghost var w1 := Put(MP_OFFSET, offset, w);
      FreeMergeSpare(w, w1, mem.Length, was, free, c, k, rest);
    }

    method PutLinkIn(mcPrev: nat, mcInsert: nat, mcNext: nat, count: nat, ghost w: Memory, ghost was: seq<Block>,
                     ghost free: seq<Chunk>, ghost c: Chunk, ghost k: nat, ghost rest: seq<Block>)
      requires Ready(w, was, free, c, k) && rest == Remove(was, c.at) && !After(free, c, k) && c.End() != Offset(was)
        && !(k < |free| && c.End() == free[k].at)
      requires mcInsert == c.at && mcPrev == Node(free, k) && mcNext == Link(free, k) && count == |free| + 1
      requires mcPrev + 12 <= mem.Length && mcInsert + 12 <= mem.Length && mcNext < WORD_LIMIT && count < WORD_LIMIT
      modifies mem
      ensures Done(w, rest)
    {
      assert MC_NEXT == 8 && COUNT == 12 && SIZEOF_MEM_POOL == 24;
      assert w == View(mem[..]) && Freeing(w, mem.Length, was, c, k) && free == FreeList(was)
        && 24 <= mem.Length < WORD_LIMIT;
      hide *;
      ghost var w1 := Put(mcInsert + MC_NEXT, mcNext, w);
      ghost var w2 := Put(mcPrev + MC_NEXT, mcInsert, w1);
      ghost var w3 := Put(COUNT, count, w2);
      FreeLinkIn(w, w1, w2, w3, mem.Length, was, free, c, k, mcPrev + MC_NEXT, mcNext, count, rest);
    }

    /** The choice among the six cases. */
    method Coalesce(mcPrevPrev: nat, mcPrev: nat, mcInsert: nat, mcNext: nat, ghost was: seq<Block>, ghost c: Chunk,
                    ghost k: nat)
      requires Encodes(mem[..], was) && HasBlock(was, mcInsert) && c == Chunk(mcInsert, BlockAt(was, mcInsert).size)
      requires Passed(FreeList(was), mcInsert, k)
      requires mcPrevPrev == NodeBefore(FreeList(was), k) && mcPrev == Node(FreeList(was), k)
        && mcNext == Link(FreeList(was), k)
      modifies mem
      ensures Done(View(old(mem[..])), Remove(was, mcInsert))
    {
      hide Encodes, View, Load, Holds, HasBlock, BlockAt, Remove, Passed, Freeing, FreeList, Link, Node, NodeBefore,
        Offset, Done;
      EncodesHolds(mem[..], was);
      ghost var w, free, size := View(mem[..]), FreeList(was), mem.Length;
      ghost var rest := Remove(was, mcInsert);
      Reads(w, size, was, free, c, k, mcPrev, mcNext);
      var prevSize, insertSize, count, offset := Get(mcPrev), Get(mcInsert), Get(COUNT), Get(MP_OFFSET);
      if mcPrev + prevSize == mcInsert && mcNext != 0 && mcInsert + insertSize == mcNext {
        // free on both sides: three become one
        ghost var i := PrevChunk(w, size, was, free, c, k, mcPrevPrev, mcPrev);
        PutMergeBoth(mcPrev, prevSize + insertSize + Get(mcNext), Get(mcNext + MC_NEXT), count - 1, w, was, free, c, i,
          rest);
      } else if mcPrev + prevSize == mcInsert && mcInsert + insertSize == offset {
        // free below and nothing above: all of it goes to the spare area
        ghost var i := PrevChunk(w, size, was, free, c, k, mcPrevPrev, mcPrev);
        PutMergePrevSpare(mcPrevPrev, mcNext, offset - (insertSize + prevSize), count - 1, w, was, free, c, i, rest);
      } else if mcPrev + prevSize == mcInsert {
        // free below
        ghost var i := PrevChunk(w, size, was, free, c, k, mcPrevPrev, mcPrev);
        PutMergePrev(mcPrev, prevSize + insertSize, w, was, free, c, i, rest);
      } else if mcNext != 0 && mcInsert + insertSize == mcNext {
        // free above
        PutMergeNext(mcPrev, mcInsert, insertSize + Get(mcNext), Get(mcNext + MC_NEXT), w, was, free, c, k, rest);
      } else if mcInsert + insertSize == offset {
        // nothing above: back to the spare area
        PutMergeSpare(offset - insertSize, w, was, free, c, k, rest);
      } else {
        // live neighbours: a chunk of its own
        PutLinkIn(mcPrev, mcInsert, mcNext, count + 1, w, was, free, c, k, rest);
      }
    }

    /** mm_insert_chunk: false when the chunk is in the free list already. */
    method InsertChunk(mcInsert: nat) returns (ok: bool)
      requires Valid()
      requires HasBlock(live, mcInsert) || IsFreeChunk(FreeList(live), mcInsert)
      modifies this`live, mem
      ensures Valid()
      ensures ok <==> HasBlock(old(live), mcInsert)
      ensures live == if ok then Remove(old(live), mcInsert) else old(live)
      ensures !ok ==> mem[..] == old(mem[..])
      ensures BlocksKept(old(mem[..]), mem[..], live)
    {
      PoolFacts(mem[..], live);
      var mcPrevPrev, mcPrev, mcNext, k := FindPlace(mcInsert);
      if mcPrev == mcInsert || mcNext == mcInsert {
        KnownToBeFree(live, mcInsert, k);
        return false;
      }
      NotInList(live, mcInsert, k);
      Coalesce(mcPrevPrev, mcPrev, mcInsert, mcNext, live, Chunk(mcInsert, BlockAt(live, mcInsert).size), k);
      live := Remove(live, mcInsert);
      HoldsIsValid(mem[..], live);
      WordsKeptBytesKept(old(mem[..]), mem[..], live);
      ok := true;
    }

    // ----- mm_retrieve_chunk and mm_malloc -----

    /** The search of mm_retrieve_chunk: the link that leads to the best-fitting chunk. */
    method FindBest(size: nat, ghost free: seq<Chunk>) returns (pmcMin: nat, ghost k: int)
      requires Chain(View(mem[..]), free) && forall t | 0 <= t < |free| :: 0 < free[t].at && free[t].size < Get(MP_SIZE)
      ensures k == BestFit(free, size)
      ensures pmcMin == if k < 0 then 0 else Node(free, k) + MC_NEXT
    {
      assert BestFit(free[..0], size) == -1;
      hide Load, View, BestFit;
      ghost var w, n := View(mem[..]), 0;
      pmcMin := 0;
      var sMin, mc := Get(MP_SIZE), MP_FREECHUNKS;
      k := -1;
      assert w(Node(free, 0) + MC_NEXT) == Link(free, 0);
      while Get(mc + MC_NEXT) != 0
        invariant n <= |free| && mc == Node(free, n) && Get(mc + MC_NEXT) == Link(free, n)
        invariant k == BestFit(free[..n], size)
        invariant if k < 0 then pmcMin == 0 && sMin == Get(MP_SIZE)
          else pmcMin == Node(free, k) + MC_NEXT && sMin == free[k].size
        decreases |free| - n
      {
        var next := Get(mc + MC_NEXT);
        var s := Get(next);
        BestFitStep(free, size, n, k);
        if s >= size && s < sMin {
          pmcMin, sMin, k := mc + MC_NEXT, s, n;
          if s == size {
            BestFitStops(free, size, n + 1);
            break;
          }
        }
        mc := next;
        n := n + 1;
        assert w(Node(free, n) + MC_NEXT) == Link(free, n);
      }
      assert n == |free| ==> free[..n] == free;
    }

    /** mm_retrieve_chunk: a chunk for a request of `size`, off the list, or 0. */
    method RetrieveChunk(size: nat, ghost usize: nat) returns (mcRes: nat, ghost k: int)
      requires Valid() && 0 < usize && size == Need(usize)
      modifies mem
      ensures k == BestFit(FreeList(live), size)
      ensures k < 0 ==> mcRes == 0 && mem[..] == old(mem[..])
      ensures 0 <= k ==> mcRes == FreeList(live)[k].at && mcRes != 0
      ensures 0 <= k ==> Reserved(View(mem[..]), mem.Length, live,
        Block(mcRes, Taken(FreeList(live)[k].size, size), usize))
      ensures 0 <= k ==> WordsKept(View(old(mem[..])), View(mem[..]), live)
    {
      hide Encodes, Reserved, WordsKept, BestFit, Fits, Load, View, Chain, Node;
      PoolFacts(mem[..], live);
      var pmcMin;
      SizesBelow(mem[..], live);
      pmcMin, k := FindBest(size, FreeList(live));
      if pmcMin == 0 {
        return 0, k;
      }
      ghost var w, free := View(mem[..]), FreeList(live);
      ghost var b := Block(free[k].at, Taken(free[k].size, size), usize);
      RetrieveFacts(w, mem.Length, live, free, k, usize);
      mcRes := Get(pmcMin);
      var chunk, next := Get(mcRes), Get(mcRes + MC_NEXT);
      if chunk >= size + Min(2 * size, 128) {
        // the rest stays in the list
        PutSplit(pmcMin, mcRes, size, chunk - size, next, w, live, free, k, b);
      } else {
        // all of it leaves the list
        PutWhole(pmcMin, next, Get(COUNT) - 1, w, live, free, k, b);
      }
    }

    method PutSplit(pmcMin: nat, mcRes: nat, size: nat, s: nat, next: nat, ghost w: Memory, ghost was: seq<Block>,
                    ghost free: seq<Chunk>, ghost k: nat, ghost b: Block)
      requires w == View(mem[..]) && SIZEOF_MEM_POOL <= mem.Length < WORD_LIMIT && Holds(w, mem.Length, was)
        && free == FreeList(was)
      requires k < |free| && Fits(b) && b.at == free[k].at && b.size + MIN_CHUNK <= free[k].size
      requires mcRes == b.at && size == b.size && s == free[k].size - b.size && next == Link(free, k + 1)
        && pmcMin == Node(free, k) + MC_NEXT
      requires mcRes + size + s <= mem.Length && pmcMin + 4 <= mem.Length && next < WORD_LIMIT
      modifies mem
      ensures Reserved(View(mem[..]), mem.Length, was, b) && WordsKept(w, View(mem[..]), was)
    {
      hide Load, View, Holds, Reserved, WordsKept, Gaps, Node, Link, Chain, Store;
      ghost var w1 := Put(mcRes, size, w);
      var mc := mcRes + size;
      ghost var w2 := Put(mc, s, w1);
      ghost var w3 := Put(mc + MC_NEXT, next, w2);
      ghost var w4 := Put(pmcMin, mc, w3);
      ReserveSplit(w, w1, w2, w3, w4, mem.Length, was, free, k, b, Chunk(mc, s), pmcMin, next);
    }

    method PutWhole(pmcMin: nat, next: nat, count: nat, ghost w: Memory, ghost was: seq<Block>, ghost free: seq<Chunk>,
                    ghost k: nat, ghost b: Block)
      requires w == View(mem[..]) && SIZEOF_MEM_POOL <= mem.Length < WORD_LIMIT && Holds(w, mem.Length, was)
        && free == FreeList(was)
      requires k < |free| && Fits(b) && b.at == free[k].at && b.size == free[k].size
      requires next == Link(free, k + 1) && pmcMin == Node(free, k) + MC_NEXT && count == |free| - 1
      requires pmcMin + 4 <= mem.Length && next < WORD_LIMIT && count < WORD_LIMIT
      modifies mem
      ensures Reserved(View(mem[..]), mem.Length, was, b) && WordsKept(w, View(mem[..]), was)
    {
      assert COUNT == 12 && SIZEOF_MEM_POOL == 24;
      assert Holds(w, mem.Length, was) && Fits(b) && 24 <= mem.Length;
      hide *;
      ghost var w1 := Put(pmcMin, next, w);
      ghost var w2 := Put(COUNT, count, w1);
      ReserveWhole(w, w1, w2, mem.Length, was, free, k, b, pmcMin, next, count);
    }

    /** mm_malloc: the address of the user area, or 0. Nothing but the new block and the
        list changes; no byte of a live block does. */
    method Malloc(usize: nat) returns (ptr: nat)
      requires Valid() && SIZEOF_MEM_CHUNK + usize + SIZEOF_MEM_WORD <= WORD_LIMIT
      modifies this`live, mem
      ensures Valid()
      ensures match MmSpec.Malloc(mem.Length, old(live), usize)
        case None => ptr == 0 && live == old(live) && mem[..] == old(mem[..])
        case Some(b) => ptr == b.at + SIZEOF_MEM_CHUNK && live == Insert(old(live), b)
      ensures BlocksKept(old(mem[..]), mem[..], old(live))
    {
      ptr := 0;
      if usize == 0 {
        return;
      }
      NeedFits(usize);
      PoolFacts(mem[..], live);
      ghost var was, w := live, View(mem[..]);
      var size := Align2Word(SIZEOF_MEM_CHUNK + usize);
      var mc, k := RetrieveChunk(size, usize);
      if mc != 0 {
        ghost var b := Block(mc, Taken(FreeList(was)[k].size, size), usize);
        PutUser(mc + MC_USIZE, usize, w, was, b);
        live := Insert(was, b);
        HoldsIsValid(mem[..], live);
        WordsKeptBytesKept(old(mem[..]), mem[..], was);
        return mc + MC_NEXT;
      }
      if Get(MP_SIZE) - Get(MP_OFFSET) < size {
        // no chunk fits, and neither does the spare area
        return;
      }
      mc := Get(MP_OFFSET);
      ghost var b := Block(mc, size, usize);
      PutCarve(mc, size, usize, w, was, b);
      live := Insert(was, b);
      HoldsIsValid(mem[..], live);
      WordsKeptBytesKept(old(mem[..]), mem[..], was);
      ptr := mc + MC_NEXT;
    }

    method PutUser(a: nat, usize: nat, ghost w: Memory, ghost was: seq<Block>, ghost b: Block)
      requires Reserved(View(mem[..]), mem.Length, was, b) && WordsKept(w, View(mem[..]), was)
      requires a == b.at + MC_USIZE && usize == b.usize
      modifies mem
      ensures Holds(View(mem[..]), mem.Length, Insert(was, b)) && WordsKept(w, View(mem[..]), was)
    {
      ghost var w1 := View(mem[..]);
      ReservedFits(w1, mem.Length, was, b);
      ghost var w2 := Put(a, usize, w1);
      SetUser(w1, w2, mem.Length, was, b);
    }

    method PutCarve(mc: nat, size: nat, usize: nat, ghost w: Memory, ghost was: seq<Block>, ghost b: Block)
      requires w == View(mem[..]) && SIZEOF_MEM_POOL <= mem.Length < WORD_LIMIT && Holds(w, mem.Length, was)
      requires Fits(b) && b == Block(mc, size, usize) && mc == Offset(was) && mc + size <= mem.Length
      modifies mem
      ensures Holds(View(mem[..]), mem.Length, Insert(was, b)) && WordsKept(w, View(mem[..]), was)
    {
      assert MP_OFFSET == 4 && MC_USIZE == 4 && SIZEOF_MEM_POOL == 24;
      assert Holds(w, mem.Length, was) && Fits(b) && 16 <= size && usize < size && b.End() == mc + size
        && 24 <= mem.Length;
      ghost var now := Insert(was, b);
      hide *;
      ghost var w1 := Put(mc, size, w);
      ghost var w2 := Put(mc + MC_USIZE, usize, w1);
      ghost var w3 := Put(MP_OFFSET, mc + size, w2);
      Carve(w, w1, w2, w3, mem.Length, was, b, mc + size, now);
    }

    /** mm_free. A null pointer is ignored. */
    method Free(ptr: nat)
      requires Valid()
      requires ptr != 0 ==> SIZEOF_MEM_CHUNK <= ptr && HasBlock(live, ptr - SIZEOF_MEM_CHUNK)
      modifies this`live, mem
      ensures Valid()
      ensures live == if ptr == 0 then old(live) else Remove(old(live), ptr - SIZEOF_MEM_CHUNK)
      ensures BlocksKept(old(mem[..]), mem[..], live)
    {
      hide Encodes, BlocksKept, Remove, HasBlock;
      if ptr == 0 {
        KeptSame(mem[..], live);
        return;
      }
      var ok := InsertChunk(ptr - SIZEOF_MEM_CHUNK);
    }

    /** memcpy between two stretches that do not overlap. */
    method Copy(dst: nat, src: nat, n: nat)
      requires dst + n <= mem.Length && src + n <= mem.Length && (dst + n <= src || src + n <= dst)
      modifies mem
      ensures forall k | 0 <= k < mem.Length && !(dst <= k < dst + n) :: mem[k] == old(mem[k])
      ensures mem[dst..dst + n] == old(mem[src..src + n])
    {
      forall k | 0 <= k < n {
        mem[dst + k] := mem[src + k];
      }
    }

    /** Sets mc_usize of a block that is big enough already. */
    method Resize(at: nat, usize: nat)
      requires Valid() && HasBlock(live, at) && 0 < usize && SIZEOF_MEM_CHUNK + usize <= BlockAt(live, at).size
      modifies this`live, mem
      ensures Valid() && live == SetUsize(old(live), at, usize)
      ensures at + BlockAt(old(live), at).size <= mem.Length
      ensures forall k | at + SIZEOF_MEM_CHUNK <= k < at + BlockAt(old(live), at).size :: mem[k] == old(mem[k])
      ensures BlocksKept(old(mem[..]), mem[..], Remove(old(live), at))
    {
      ghost var m, was, b := mem[..], live, BlockAt(live, at);
      BlockBounds(m, was, at);
      ghost var w := Put(at + MC_USIZE, usize, View(m));
      ResizeInPlace(View(m), w, mem.Length, was, at, usize);
      live := SetUsize(was, at, usize);
      HoldsIsValid(mem[..], live);
      StretchKept(m, mem[..], at + SIZEOF_MEM_CHUNK, at + b.size);
      assert forall k | at + SIZEOF_MEM_CHUNK <= k < at + b.size :: mem[..][k] == m[k];
      RemoveKeepsPlaced(was, SIZEOF_MEM_POOL, at);
      WordsKeptBytesKept(m, mem[..], Remove(was, at));
    }

    /** The move of mm_realloc from the block of `ptr` to the new block `b` of `vp`. */
    method Move(ptr: nat, vp: nat, n: nat, ghost was: seq<Block>, ghost b: Block)
      requires Valid() && live == Insert(was, b) && PoolInv(mem.Length, was)
      requires SIZEOF_MEM_CHUNK <= ptr && HasBlock(was, ptr - SIZEOF_MEM_CHUNK) && !HasBlock(was, b.at)
      requires n == BlockAt(was, ptr - SIZEOF_MEM_CHUNK).usize <= b.usize && Fits(b) && vp == b.at + SIZEOF_MEM_CHUNK
      requires b in live && forall c | c in was :: b.End() <= c.at || c.End() <= b.at
      modifies this`live, mem
      ensures Valid() && live == Remove(Insert(was, b), ptr - SIZEOF_MEM_CHUNK)
      ensures Survives(old(mem[..]), mem[..], ptr, vp, n)
      ensures BlocksKept(old(mem[..]), mem[..], Remove(was, ptr - SIZEOF_MEM_CHUNK))
    {
      hide Encodes, View, Load, Insert, Remove, BlocksKept, HasBlock, BlockAt, PoolInv, Holds, Fits, Survives;
      ghost var m, at := mem[..], ptr - SIZEOF_MEM_CHUNK;
      MoveFacts(m, was, b, at, n);
      Copy(vp, ptr, n);
      ghost var m1 := mem[..];
      assert m1[vp..vp + n] == m[ptr..ptr + n];
      SliceSurvives(m, m1, ptr, vp, n);
      CopiedIn(m, m1, was, b, n);
      MovedBlocks(mem.Length, was, b, at);
      Free(ptr);
      KeptTwice(m, m1, mem[..], was, live, Remove(was, at));
      BlockSurvives(m1, mem[..], live, b, n);
      SurvivesTwice(m, m1, mem[..], ptr, vp, vp, n);
    }

    /** mm_realloc of a block: on success the first min(old, new) user bytes survive, wherever the block
        now is; on failure nothing has changed; no byte of another live block ever does. */
    method ReallocBlock(ptr: nat, usize: nat) returns (vp: nat)
      requires Valid() && SIZEOF_MEM_CHUNK + usize + SIZEOF_MEM_WORD <= WORD_LIMIT
      requires SIZEOF_MEM_CHUNK <= ptr && HasBlock(live, ptr - SIZEOF_MEM_CHUNK)
      modifies this`live, mem
      ensures Valid()
      ensures match MmSpec.Realloc(mem.Length, old(live), ptr - SIZEOF_MEM_CHUNK, usize)
        case None => vp == 0 && live == old(live) && mem[..] == old(mem[..])
        case Some(r) => live == r.0 && vp == r.1 + SIZEOF_MEM_CHUNK
      ensures vp != 0 ==> Survives(old(mem[..]), mem[..], ptr, vp,
        Min(usize, BlockAt(old(live), ptr - SIZEOF_MEM_CHUNK).usize))
      ensures BlocksKept(old(mem[..]), mem[..], Remove(old(live), ptr - SIZEOF_MEM_CHUNK))
    {
      hide Encodes, View, Load, Insert, Remove, BlocksKept, BlockAt, HasBlock, Holds, Fits, SetUsize, Survives;
      vp := 0;
      var mc := ptr - SIZEOF_MEM_CHUNK;
      ghost var m, was := mem[..], live;
      BlockBounds(m, was, mc);
      EncodesPool(m, was);
      if usize == 0 {
        KeptSame(m, Remove(was, mc));
        return;
      }
      NeedFits(usize);
      var size := Align2Word(SIZEOF_MEM_CHUNK + usize);
      if usize <= Get(mc + MC_USIZE) || size <= Get(mc) {
        Resize(mc, usize);
        StretchSurvives(m, mem[..], ptr, Min(usize, BlockAt(was, mc).usize));
        return ptr;
      }
      vp := Malloc(usize);
      if vp == 0 {
        KeptSame(m, Remove(was, mc));
        return;
      }
      ghost var b := MmSpec.Malloc(mem.Length, was, usize).value;
      ghost var m1 := mem[..];
      ReadyToMove(m, m1, was, b, mc, usize);
      Move(ptr, vp, Get(mc + MC_USIZE), was, b);
      SurvivesTwice(m, m1, mem[..], ptr, ptr, vp, BlockAt(was, mc).usize);
      RemovedAddress(was, SIZEOF_MEM_POOL, mc);
      KeptTwice(m, m1, mem[..], was, Remove(was, mc), Remove(was, mc));
    }

    /** mm_realloc; a null pointer makes it mm_malloc. */
    method Realloc(ptr: nat, usize: nat) returns (vp: nat)
      requires Valid() && SIZEOF_MEM_CHUNK + usize + SIZEOF_MEM_WORD <= WORD_LIMIT
      requires ptr != 0 ==> SIZEOF_MEM_CHUNK <= ptr && HasBlock(live, ptr - SIZEOF_MEM_CHUNK)
      modifies this`live, mem
      ensures Valid()
      ensures ptr == 0 ==>
        match MmSpec.Malloc(mem.Length, old(live), usize)
        case None => vp == 0 && live == old(live) && mem[..] == old(mem[..])
        case Some(b) => vp == b.at + SIZEOF_MEM_CHUNK && live == Insert(old(live), b)
      ensures ptr == 0 ==> BlocksKept(old(mem[..]), mem[..], old(live))
      ensures ptr != 0 ==>
        match MmSpec.Realloc(mem.Length, old(live), ptr - SIZEOF_MEM_CHUNK, usize)
        case None => vp == 0 && live == old(live) && mem[..] == old(mem[..])
        case Some(r) => live == r.0 && vp == r.1 + SIZEOF_MEM_CHUNK
      ensures ptr != 0 && vp != 0 ==>
        var was := BlockAt(old(live), ptr - SIZEOF_MEM_CHUNK).usize;
        Survives(old(mem[..]), mem[..], ptr, vp, if usize < was then usize else was)
      ensures ptr != 0 ==> BlocksKept(old(mem[..]), mem[..], Remove(old(live), ptr - SIZEOF_MEM_CHUNK))
    {
      hide Encodes, View, Load, Insert, Remove, BlocksKept, BlockAt, HasBlock, Holds, SetUsize, MmSpec.Malloc,
        MmSpec.Realloc, Survives;
      if ptr == 0 {
        vp := Malloc(usize);
      } else {
        vp := ReallocBlock(ptr, usize);
      }
    }

    // ----- the sums of mm_available and mm_display_info -----

    /** The total size of the free chunks. */
    method SumChunks(ghost free: seq<Chunk>) returns (nFree: nat)
      requires Chain(View(mem[..]), free) && forall t | 0 <= t < |free| :: 0 < free[t].at
      ensures nFree == SumFree(free)
    {
      ghost var w, n := View(mem[..]), 0;
      var mc := MP_FREECHUNKS;
      nFree := 0;
      assert w(Node(free, 0) + MC_NEXT) == Link(free, 0);
      assert free[0..] == free;
      while Get(mc + MC_NEXT) != 0
        invariant n <= |free| && mc == Node(free, n) && Get(mc + MC_NEXT) == Link(free, n)
        invariant nFree + SumFree(free[n..]) == SumFree(free)
        decreases |free| - n
      {
        assert free[n..][1..] == free[n + 1..];
        mc := Get(mc + MC_NEXT);
        nFree := nFree + Get(mc);
        n := n + 1;
        assert w(Node(free, n) + MC_NEXT) == Link(free, n);
      }
    }

    /** mm_available: everything no live block occupies. */
    method Available() returns (nFree: int)
      requires Valid()
      ensures nFree == mem.Length - SIZEOF_MEM_POOL - SumLive(live)
    {
      PoolFacts(mem[..], live);
      SizesBelow(mem[..], live);
      Conservation(mem.Length, live);
      var chunks := SumChunks(FreeList(live));
      nFree := Get(MP_SIZE) - Get(MP_OFFSET) + chunks;
    }

    /** The figures mm_display_info prints. */
    method DisplayInfo() returns (spare: int, nFree: int, chunks: nat, nAlloc: int)
      requires Valid()
      ensures nAlloc == SumLive(live) && chunks == |FreeList(live)|
      ensures spare == mem.Length - Offset(live) && nFree == SumFree(FreeList(live))
      ensures SIZEOF_MEM_POOL + nAlloc + nFree + spare == mem.Length
    {
      PoolFacts(mem[..], live);
      SizesBelow(mem[..], live);
      Conservation(mem.Length, live);
      nFree := SumChunks(FreeList(live));
      nAlloc := Get(MP_OFFSET) - SIZEOF_MEM_POOL - nFree;
      spare, chunks := Get(MP_SIZE) - Get(MP_OFFSET), Get(COUNT);
    }

    /** The pool header that mm_create writes into a fresh segment of `size` bytes. */
    constructor (size: nat)
      requires SIZEOF_MEM_POOL <= size < WORD_LIMIT
      ensures Valid() && fresh(mem) && mem.Length == size && live == []
    {
      mem := new Byte[size];
      live := [];
      new;
      ghost var w1 := Put(MP_SIZE, size, View(mem[..]));
      ghost var w2 := Put(MP_OFFSET, SIZEOF_MEM_POOL, w1);
      ghost var w3 := Put(MP_FREECHUNKS, 0, w2);
      ghost var w4 := Put(COUNT, 0, w3);
      ghost var w5 := Put(MP_FREECHUNKS + MC_NEXT, 0, w4);
      FreshPool(w5, size);
    }
  }

  lemma {:induction false} FreshPool(w: Memory, size: nat)
    requires SIZEOF_MEM_POOL <= size < WORD_LIMIT
    requires w(MP_SIZE) == size && w(MP_OFFSET) == SIZEOF_MEM_POOL && w(MP_FREECHUNKS) == 0 && w(COUNT) == 0
      && w(MP_FREECHUNKS + MC_NEXT) == 0
    ensures Holds(w, size, [])
  {
  }

  /** mm_create: a pool of the size asked for, or of the nearest size there is; 0 asks for the
      largest. */
  method Create(usize: nat, page: nat) returns (mm: Pool)
    requires PageSize(page)
    ensures mm.Valid() && fresh(mm) && fresh(mm.mem) && mm.live == []
    ensures var largest := MaxSegSize(page) - SIZEOF_MEM_POOL;
      && MM_ALLOC_MINSIZE <= largest
      && mm.mem.Length == SIZEOF_MEM_POOL +
           if usize == 0 || largest < usize then largest
           else if usize < MM_ALLOC_MINSIZE then MM_ALLOC_MINSIZE
           else usize
  {
    SmallestPoolFits(page);
    Align2PageAddsLess(MM_SHM_MAXSEGSIZE - SIZEOF_MEM_CORE - page, page);
    ClampIsAccepted(usize, page);
    var size := PoolSize(usize, page);
    mm := new Pool(size);
  }
}
