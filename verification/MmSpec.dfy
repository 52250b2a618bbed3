/** Allocation on values: what mm_malloc, mm_free and mm_realloc do to the live blocks. */
module MmSpec {
  import opened Words
  import opened MmFreeList
  import opened Wrappers
  import opened MmCore

  function Min(a: nat, b: nat): nat { if a < b then a else b }

  /** Index of the chunk mm_retrieve_chunk picks, or -1. */
  function BestFit(free: seq<Chunk>, size: nat): (k: int)
    ensures -1 <= k < |free|
  {
    if free == [] then -1
    else
      var n := |free| - 1;
      var r := BestFit(free[..n], size);
      if free[n].size >= size && (r < 0 || free[n].size < free[r].size) then n else r
  }

  /** How much of a chunk a request of `size` takes: a remainder worth keeping is split off. */
  function Taken(chunk: nat, size: nat): nat {
    if chunk >= size + Min(2 * size, 128) then size else chunk
  }

  /** The free list once the first `n` bytes of the chunk at `at` are gone. */
  function Take(free: seq<Chunk>, at: nat, n: nat): seq<Chunk> {
    if free == [] then []
    else if free[0].at != at then [free[0]] + Take(free[1..], at, n)
    else if n < free[0].size then [Chunk(at + n, free[0].size - n)] + free[1..]
    else free[1..]
  }

  ghost predicate PoolInv(size: nat, live: seq<Block>) {
    && size < WORD_LIMIT
    && Placed(live, SIZEOF_MEM_POOL)
    && Top(live, SIZEOF_MEM_POOL) <= size
  }

  function FreeList(live: seq<Block>): seq<Chunk> { Gaps(live, SIZEOF_MEM_POOL) }

  function Offset(live: seq<Block>): nat { Top(live, SIZEOF_MEM_POOL) }

  /** The chunk size of a request. */
  function Need(usize: nat): nat { Align2Word(SIZEOF_MEM_CHUNK + usize) }

  /** The block mm_malloc hands out, or None for its NULL. */
  function Malloc(size: nat, live: seq<Block>, usize: nat): Option<Block> {
    var free, need := FreeList(live), Need(usize);
    var k := BestFit(free, need);
    if usize == 0 then None
    else if 0 <= k then Some(Block(free[k].at, Taken(free[k].size, need), usize))
    else if size - Offset(live) < need then None
    else Some(Block(Offset(live), need, usize))
  }

  function SetUsize(live: seq<Block>, at: nat, usize: nat): seq<Block> {
    if live == [] then []
    else if live[0].at == at then [live[0].(usize := usize)] + live[1..]
    else [live[0]] + SetUsize(live[1..], at, usize)
  }

  /** mm_realloc keeps a block that is big enough. */
  ghost predicate InPlace(b: Block, usize: nat) {
    usize <= b.usize || Need(usize) <= b.size
  }

  /** The live blocks after mm_realloc of the block at `at` and the address of the block its
      user now owns; None for NULL, which leaves everything as it was. */
  ghost function Realloc(size: nat, live: seq<Block>, at: nat, usize: nat): Option<(seq<Block>, nat)>
    requires HasBlock(live, at)
  {
    if usize == 0 then None
    else if InPlace(BlockAt(live, at), usize) then Some((SetUsize(live, at, usize), at))
    else match Malloc(size, live, usize)
      case None => None
      case Some(b) => Some((Remove(Insert(live, b), at), b.at))
  }

  // ----- best fit -----

  /** The chosen chunk is the first of minimal sufficient size. */
  lemma {:induction false} BestFitIsFirstMinimal(free: seq<Chunk>, size: nat)
    ensures var k := BestFit(free, size);
      && (k < 0 <==> forall i | 0 <= i < |free| :: free[i].size < size)
      && (0 <= k ==> free[k].size >= size)
      && (0 <= k ==> forall i | 0 <= i < |free| && free[i].size >= size ::
            free[k].size < free[i].size || (free[k].size == free[i].size && k <= i))
  {
    if free != [] {
      var n := |free| - 1;
      BestFitIsFirstMinimal(free[..n], size);
      assert forall i | 0 <= i < n :: free[..n][i] == free[i];
    }
  }

  /** Nothing after an exact fit changes the choice: the search may stop there. */
  lemma {:induction false} BestFitStops(free: seq<Chunk>, size: nat, n: nat)
    requires n <= |free| && 0 <= BestFit(free[..n], size) && free[BestFit(free[..n], size)].size == size
    ensures BestFit(free, size) == BestFit(free[..n], size)
  {
    BestFitIsFirstMinimal(free, size);
    BestFitIsFirstMinimal(free[..n], size);
    var j, k := BestFit(free[..n], size), BestFit(free, size);
    assert free[..n][j] == free[j];
    if k < n { assert free[..n][k] == free[k]; }
  }

  // ----- what allocation does to the canonical form -----

  ghost predicate Fits(b: Block) {
    MIN_CHUNK <= b.size && b.size % 8 == 0 && 0 < b.usize && SIZEOF_MEM_CHUNK + b.usize <= b.size
  }

  /** A block put into a gap, from its start: the list loses the chunk or keeps its tail. */
  lemma {:induction false} TakeIsCanonical(live: seq<Block>, from: nat, g: Chunk, b: Block)
    requires Placed(live, from) && g in Gaps(live, from) && Fits(b)
    requires b.at == g.at && (b.size == g.size || b.size + MIN_CHUNK <= g.size)
    ensures Placed(Insert(live, b), from)
    ensures Gaps(Insert(live, b), from) == Take(Gaps(live, from), b.at, b.size)
    ensures Top(Insert(live, b), from) == Top(live, from)
  {
    var b0, rest := live[0], live[1..];
    var tail := Gaps(rest, b0.End());
    GapsCons(live, from);
    GapsWithin(rest, b0.End());
    if b.at < b0.at {
      assert g !in tail;
      TakeFirst(live, from, b);
    } else {
      assert g in tail;
      TakeIsCanonical(rest, b0.End(), g, b);
      InsertCons(live, from, b);
      if from < b0.at {
        assert ([Chunk(from, b0.at - from)] + tail)[1..] == tail;
      }
    }
  }

  lemma {:induction false} InsertCons(live: seq<Block>, from: nat, b: Block)
    requires live != [] && live[0].at <= b.at
    ensures var live', tail' := Insert(live, b), Gaps(Insert(live[1..], b), live[0].End());
      && live'[0] == live[0] && live'[1..] == Insert(live[1..], b)
      && Gaps(live', from) == (if from < live[0].at then [Chunk(from, live[0].at - from)] + tail' else tail')
      && Top(live', from) == Top(Insert(live[1..], b), live[0].End())
  {
    var live' := Insert(live, b);
    assert live'[0] == live[0] && live'[1..] == Insert(live[1..], b);
    GapsCons(live', from);
  }

  lemma {:induction false} TakeFirst(live: seq<Block>, from: nat, b: Block)
    requires live != [] && Placed(live, from) && from < live[0].at && Fits(b)
    requires b.at == from && (b.End() == live[0].at || b.End() + MIN_CHUNK <= live[0].at)
    ensures Placed(Insert(live, b), from)
    ensures Gaps(Insert(live, b), from) == Take(Gaps(live, from), from, b.size)
    ensures Top(Insert(live, b), from) == Top(live, from)
  {
    var live' := Insert(live, b);
    assert live' == [b] + live && live'[1..] == live;
    GapsCons(live, from);
    GapsCons(live, b.End());
    GapsCons(live', from);
  }

  /** What is left of a chunk of `size` at `at` once n bytes are taken. */
  function Rest(at: nat, size: nat, n: nat): seq<Chunk>
    requires n <= size
  {
    if n < size then [Chunk(at + n, size - n)] else []
  }

  lemma {:induction false} TakeHere(free: seq<Chunk>, n: nat)
    requires free != [] && n <= free[0].size
    ensures Take(free, free[0].at, n) == Rest(free[0].at, free[0].size, n) + free[1..]
  {
  }

  lemma {:induction false} TakeBehind(free: seq<Chunk>, at: nat, n: nat)
    requires free != [] && free[0].at != at
    ensures Take(free, at, n) == [free[0]] + Take(free[1..], at, n)
  {
  }

  lemma {:induction false} Splice(free: seq<Chunk>, k: nat, mid: seq<Chunk>)
    requires 0 < k < |free|
    ensures var tail := free[1..];
      [free[0]] + (tail[..k - 1] + mid + tail[k..]) == free[..k] + mid + free[k + 1..]
  {
    var tail := free[1..];
    assert free[..k] == [free[0]] + tail[..k - 1] && tail[k..] == free[k + 1..];
  }

  /** `Take` by position. */
  lemma {:induction false} TakeAt(free: seq<Chunk>, k: nat, n: nat)
    requires Apart(free) && k < |free| && n <= free[k].size
    ensures Take(free, free[k].at, n) == free[..k] + Rest(free[k].at, free[k].size, n) + free[k + 1..]
  {
    hide Take, Rest;
    if k == 0 {
      TakeHere(free, n);
      assert free[..0] == [];
    } else {
      TakeBehind(free, free[k].at, n);
      TakeAt(free[1..], k - 1, n);
      Splice(free, k, Rest(free[k].at, free[k].size, n));
    }
  }

  /** A block carved from the spare area. */
  lemma {:induction false} CarveIsCanonical(live: seq<Block>, from: nat, b: Block)
    requires Placed(live, from) && from % 8 == 0 && b.at == Top(live, from)
    requires Fits(b)
    ensures Placed(Insert(live, b), from)
    ensures Gaps(Insert(live, b), from) == Gaps(live, from)
    ensures Top(Insert(live, b), from) == b.End()
  {
    if live != [] {
      assert live[0].End() <= b.at by { LiveShape(live[1..], live[0].End()); }
      CarveIsCanonical(live[1..], live[0].End(), b);
      InsertCons(live, from, b);
      GapsCons(live, from);
    }
  }

  lemma {:induction false} SetUsizeIsCanonical(live: seq<Block>, from: nat, at: nat, usize: nat)
    requires Placed(live, from) && HasBlock(live, at)
    requires 0 < usize && SIZEOF_MEM_CHUNK + usize <= BlockAt(live, at).size
    ensures Placed(SetUsize(live, at, usize), from)
    ensures Gaps(SetUsize(live, at, usize), from) == Gaps(live, from)
    ensures Top(SetUsize(live, at, usize), from) == Top(live, from)
  {
    var live' := SetUsize(live, at, usize);
    if live[0].at == at {
      assert live'[1..] == live[1..];
    } else {
      SetUsizeIsCanonical(live[1..], live[0].End(), at, usize);
      assert live'[0] == live[0] && live'[1..] == SetUsize(live[1..], at, usize);
    }
    GapsCons(live, from);
    GapsCons(live', from);
  }

  lemma {:induction false} NeedFits(usize: nat)
    ensures MIN_CHUNK <= Need(usize) || usize == 0
    ensures Need(usize) % 8 == 0 && SIZEOF_MEM_CHUNK + usize <= Need(usize) < SIZEOF_MEM_CHUNK + usize + SIZEOF_MEM_WORD
  {
  }

  lemma {:induction false} MallocFits(size: nat, live: seq<Block>, usize: nat)
    requires PoolInv(size, live) && Malloc(size, live, usize).Some?
    ensures var b, free, k := Malloc(size, live, usize).value, FreeList(live), BestFit(FreeList(live), Need(usize));
      && Fits(b) && b.usize == usize
      && (0 <= k ==> free[k] in free && (b.size == free[k].size || b.size + MIN_CHUNK <= free[k].size))
  {
    var free, k := FreeList(live), BestFit(FreeList(live), Need(usize));
    NeedFits(usize);
    BestFitIsFirstMinimal(free, Need(usize));
    GapsWithin(live, SIZEOF_MEM_POOL);
    assert 0 <= k ==> free[k] in free;
  }

  /** mm_malloc: where the new block lies, and the list and offset it leaves. */
  lemma {:induction false} MallocIsCanonical(size: nat, live: seq<Block>, usize: nat)
    requires PoolInv(size, live) && Malloc(size, live, usize).Some?
    ensures var b, free, k := Malloc(size, live, usize).value, FreeList(live), BestFit(FreeList(live), Need(usize));
      && PoolInv(size, Insert(live, b))
      && (0 <= k ==>
        && b.size <= free[k].size && FreeList(Insert(live, b)) == Take(free, b.at, b.size)
        && Offset(Insert(live, b)) == Offset(live))
      && (k < 0 ==> FreeList(Insert(live, b)) == free && Offset(Insert(live, b)) == b.End())
  {
    var b, free, k := Malloc(size, live, usize).value, FreeList(live), BestFit(FreeList(live), Need(usize));
    MallocFits(size, live, usize);
    if 0 <= k {
      TakeIsCanonical(live, SIZEOF_MEM_POOL, free[k], b);
    } else {
      CarveIsCanonical(live, SIZEOF_MEM_POOL, b);
    }
  }
}
