/** Laws of the allocator over whole programs: they hold of the free-list algorithm itself,
    because its results are canonical. */
module MmLaws {
  import opened Words
  import opened MmFreeList
  import opened MmCore
  import opened MmSpec
  import opened Wrappers

  // ----- undo and commutation -----

  lemma {:induction false} InsertThenRemove(live: seq<Block>, b: Block)
    requires !HasBlock(live, b.at)
    ensures HasBlock(Insert(live, b), b.at)
    ensures BlockAt(Insert(live, b), b.at) == b && Remove(Insert(live, b), b.at) == live
  {
    var live' := Insert(live, b);
    if live == [] || b.at < live[0].at {
      assert live'[1..] == live;
    } else {
      InsertThenRemove(live[1..], b);
      assert live'[0] == live[0] && live'[1..] == Insert(live[1..], b);
    }
  }

  /** mm_malloc never hands out an address that is live. */
  lemma {:induction false} MallocIsFresh(size: nat, live: seq<Block>, usize: nat)
    requires PoolInv(size, live) && Malloc(size, live, usize).Some?
    ensures !HasBlock(live, Malloc(size, live, usize).value.at)
    ensures forall c | c in live ::
      var b := Malloc(size, live, usize).value; b.End() <= c.at || c.End() <= b.at
  {
    hide Gaps, Placed, BestFit;
    var b, free, k := Malloc(size, live, usize).value, FreeList(live), BestFit(FreeList(live), Need(usize));
    BestFitIsFirstMinimal(free, Need(usize));
    GapShape(live, SIZEOF_MEM_POOL);
    LiveShape(live, SIZEOF_MEM_POOL);
    assert 0 <= k ==> free[k] in free;
    assert HasBlock(live, b.at) ==> BlockAt(live, b.at) in live;
  }

  /** Allocating and freeing at once restores free list and spare offset exactly, whether
      the block was split off, taken whole or carved from the spare area. */
  lemma {:induction false} MallocThenFree(size: nat, live: seq<Block>, usize: nat)
    requires PoolInv(size, live) && Malloc(size, live, usize).Some?
    ensures var b := Malloc(size, live, usize).value;
      Absorb(FreeList(Insert(live, b)), Offset(Insert(live, b)), Chunk(b.at, b.size))
        == Spare(FreeList(live), Offset(live))
  {
    var b := Malloc(size, live, usize).value;
    MallocIsCanonical(size, live, usize);
    MallocIsFresh(size, live, usize);
    InsertThenRemove(live, b);
    AbsorbIsCanonical(Insert(live, b), SIZEOF_MEM_POOL, b.at);
  }

  lemma {:induction false} RemoveOther(live: seq<Block>, from: nat, a: nat, b: nat)
    requires Placed(live, from) && a != b && HasBlock(live, b)
    ensures HasBlock(Remove(live, a), b) && BlockAt(Remove(live, a), b) == BlockAt(live, b)
  {
    if live[0].at != a && live[0].at != b {
      RemoveOther(live[1..], live[0].End(), a, b);
      assert Remove(live, a)[1..] == Remove(live[1..], a);
    }
  }

  lemma {:induction false} RemovesCommute(live: seq<Block>, a: nat, b: nat)
    requires a != b
    ensures Remove(Remove(live, a), b) == Remove(Remove(live, b), a)
  {
    if live != [] {
      var rest := live[1..];
      RemovesCommute(rest, a, b);
      assert live[0].at != a ==> Remove(live, a)[1..] == Remove(rest, a);
      assert live[0].at != b ==> Remove(live, b)[1..] == Remove(rest, b);
    }
  }

  /** Free list and spare offset after freeing blocks in the given order. */
  function FreeInTurn(s: Spare, order: seq<Block>): Spare
    decreases |order|
  {
    if order == [] then s
    else FreeInTurn(Absorb(s.free, s.offset, Chunk(order[0].at, order[0].size)), order[1..])
  }

  /** The free list and spare offset of a pool. */
  function Canon(live: seq<Block>): Spare { Spare(FreeList(live), Offset(live)) }

  /** Two live blocks may be freed in either order. */
  lemma {:induction false} FreesCommute(size: nat, live: seq<Block>, a: Block, b: Block)
    requires PoolInv(size, live) && a.at != b.at
    requires HasBlock(live, a.at) && BlockAt(live, a.at) == a
    requires HasBlock(live, b.at) && BlockAt(live, b.at) == b
    ensures FreeInTurn(Canon(live), [a, b]) == FreeInTurn(Canon(live), [b, a])
  {
    FreeTwo(live, a, b);
    FreeTwo(live, b, a);
    RemovesCommute(live, a.at, b.at);
  }

  lemma {:induction false} FreeTwo(live: seq<Block>, a: Block, b: Block)
    requires Placed(live, SIZEOF_MEM_POOL) && a.at != b.at
    requires HasBlock(live, a.at) && BlockAt(live, a.at) == a
    requires HasBlock(live, b.at) && BlockAt(live, b.at) == b
    ensures FreeInTurn(Canon(live), [a, b]) == Canon(Remove(Remove(live, a.at), b.at))
  {
    AbsorbIsCanonical(live, SIZEOF_MEM_POOL, a.at);
    RemoveKeepsPlaced(live, SIZEOF_MEM_POOL, a.at);
    RemoveOther(live, SIZEOF_MEM_POOL, a.at, b.at);
    AbsorbIsCanonical(Remove(live, a.at), SIZEOF_MEM_POOL, b.at);
    assert [a, b][1..] == [b] && [b][1..] == [];
    var s := Absorb(FreeList(live), Offset(live), Chunk(a.at, a.size));
    assert FreeInTurn(s, [b]) == Absorb(s.free, s.offset, Chunk(b.at, b.size));
  }

  lemma {:induction false} RemoveTakesOne(live: seq<Block>, from: nat, b: Block)
    requires Placed(live, from) && b in live
    ensures HasBlock(live, b.at) && BlockAt(live, b.at) == b
    ensures multiset(Remove(live, b.at)) == multiset(live) - multiset{b}
  {
    assert live == [live[0]] + live[1..];
    if live[0] != b {
      LiveShape(live[1..], live[0].End());
      assert b in live[1..];
      RemoveTakesOne(live[1..], live[0].End(), b);
    }
  }

  /** Freeing every live block, in whatever order, gives back the pool as it was created. */
  lemma {:induction false} FreeingAllRestoresThePool(live: seq<Block>, order: seq<Block>)
    requires Placed(live, SIZEOF_MEM_POOL) && multiset(order) == multiset(live)
    ensures FreeInTurn(Canon(live), order) == Spare([], SIZEOF_MEM_POOL)
    decreases |order|
  {
    assert |multiset(order)| == |order| && |multiset(live)| == |live|;
    if order == [] {
      assert live == [];
    } else {
      var b := order[0];
      assert b in multiset(live) by { assert b in order; }
      assert order == [b] + order[1..];
      RemoveTakesOne(live, SIZEOF_MEM_POOL, b);
      AbsorbIsCanonical(live, SIZEOF_MEM_POOL, b.at);
      RemoveKeepsPlaced(live, SIZEOF_MEM_POOL, b.at);
      assert multiset(order[1..]) == multiset(order) - multiset{b};
      FreeingAllRestoresThePool(Remove(live, b.at), order[1..]);
    }
  }

  // ----- when allocation fails, and what it picks -----

  /** `len` pool bytes from `a` on that meet no live block. */
  ghost predicate Unallocated(size: nat, live: seq<Block>, a: nat, len: nat) {
    && SIZEOF_MEM_POOL <= a && a + len <= size
    && forall b | b in live :: a + len <= b.at || b.End() <= a
  }

  lemma {:induction false} UnallocatedIsInGapOrSpare(live: seq<Block>, from: nat, a: nat, len: nat) returns (k: int)
    requires Placed(live, from) && from <= a && 0 < len
    requires forall b | b in live :: a + len <= b.at || b.End() <= a
    ensures if k < 0 then Top(live, from) <= a
            else k < |Gaps(live, from)| && Gaps(live, from)[k].at <= a && a + len <= Gaps(live, from)[k].End()
  {
    if live == [] {
      k := -1;
    } else {
      assert live[0] in live;
      GapsCons(live, from);
      if a + len <= live[0].at {
        k := 0;
      } else {
        k := UnallocatedIsInGapOrSpare(live[1..], live[0].End(), a, len);
        k := if k < 0 then k else k + |Gaps(live, from)| - |Gaps(live[1..], live[0].End())|;
      }
    }
  }

  lemma {:induction false} GapsAreUnallocated(size: nat, live: seq<Block>, g: Chunk)
    requires PoolInv(size, live) && g in FreeList(live)
    ensures Unallocated(size, live, g.at, g.size)
  {
    GapShape(live, SIZEOF_MEM_POOL);
  }

  /** mm_malloc returns NULL only when it must: for a request of 0 bytes, and otherwise exactly
      when no contiguous run of unallocated bytes is as long as the aligned request. */
  lemma {:induction false} MallocFailsOnlyWhenItMust(size: nat, live: seq<Block>, usize: nat)
    requires PoolInv(size, live) && SIZEOF_MEM_POOL <= size
    ensures var need := (usize + 15) / 8 * 8;
      Malloc(size, live, usize).None? <==> usize == 0 || forall a: nat :: !Unallocated(size, live, a, need)
  {
    NeedIs(usize);
    if usize == 0 { return; }
    var free, need := FreeList(live), Need(usize);
    var k := BestFit(free, need);
    BestFitIsFirstMinimal(free, need);
    if Malloc(size, live, usize).None? {
      forall a: nat ensures !Unallocated(size, live, a, need) {
        if Unallocated(size, live, a, need) {
          var i := UnallocatedIsInGapOrSpare(live, SIZEOF_MEM_POOL, a, need);
        }
      }
    } else if 0 <= k {
      GapsAreUnallocated(size, live, free[k]);
      assert Unallocated(size, live, free[k].at, need);
    } else {
      LiveShape(live, SIZEOF_MEM_POOL);
      assert Unallocated(size, live, Offset(live), need);
    }
  }

  /** When some free chunk fits, the block comes from the lowest chunk `g` of minimal
      sufficient size, and what is split off it holds a header. */
  lemma {:induction false} MallocIsBestFit(size: nat, live: seq<Block>, usize: nat) returns (g: Chunk)
    requires PoolInv(size, live) && 0 < usize
    requires exists h :: h in FreeList(live) && Need(usize) <= h.size
    ensures Malloc(size, live, usize).Some? && g in FreeList(live)
    ensures var b := Malloc(size, live, usize).value;
      && g.at == b.at && b.usize == usize && Need(usize) <= b.size <= g.size
      && (b.size == g.size || (b.size == Need(usize) && b.size + MIN_CHUNK <= g.size))
    ensures forall h | h in FreeList(live) && Need(usize) <= h.size ::
      g.size < h.size || (g.size == h.size && g.at <= h.at)
  {
    var free, need := FreeList(live), Need(usize);
    var k := BestFit(free, need);
    BestFitIsFirstMinimal(free, need);
    var h :| h in free && need <= h.size;
    var i :| 0 <= i < |free| && free[i] == h;
    g := free[k];
    MallocFits(size, live, usize);
    LowestOfMinimal(live, need);
  }

  lemma {:induction false} NeedIs(usize: nat)
    ensures Need(usize) == (usize + 15) / 8 * 8
  {
  }

  /** The lowest free chunk of the least size that is at least `need`. */
  ghost predicate IsBest(g: Chunk, free: seq<Chunk>, need: nat) {
    && g in free && need <= g.size
    && forall h | h in free && need <= h.size :: g.size < h.size || (g.size == h.size && g.at <= h.at)
  }

  /** How many bytes the block takes, and where. With the request rounded up to words, header
      included: exactly that many, from the start of the spare area, when no free chunk is as
      large; otherwise from the start of the best chunk, which is taken whole unless it is larger
      by twice the rounded request, or by 128. */
  lemma {:induction false} MallocTakes(size: nat, live: seq<Block>, usize: nat)
    requires PoolInv(size, live) && Malloc(size, live, usize).Some?
    ensures var b, need := Malloc(size, live, usize).value, (usize + 15) / 8 * 8;
      && b.usize == usize
      && ((forall h | h in FreeList(live) :: h.size < need) ==> b.at == Offset(live) && b.size == need)
      && (forall g | IsBest(g, FreeList(live), need) ::
            && b.at == g.at
            && b.size == if g.size >= 3 * need || g.size >= need + 128 then need else g.size)
      && ((exists h :: h in FreeList(live) && need <= h.size) ==> exists g :: IsBest(g, FreeList(live), need))
  {
    var free, need := FreeList(live), Need(usize);
    var k := BestFit(free, need);
    NeedIs(usize);
    BestFitIsFirstMinimal(free, need);
    if 0 <= k {
      assert free[k] in free;
      LowestOfMinimal(live, need);
      assert IsBest(free[k], free, need);
      forall g | IsBest(g, free, need) ensures g == free[k] { }
    }
  }

  /** mm_realloc returns NULL for 0 bytes, and otherwise exactly when the block is too small
      and mm_malloc fails. */
  lemma {:induction false} ReallocFailsOnlyWhenItMust(size: nat, live: seq<Block>, at: nat, usize: nat)
    requires PoolInv(size, live) && SIZEOF_MEM_POOL <= size && HasBlock(live, at)
    ensures var b, need := BlockAt(live, at), (usize + 15) / 8 * 8;
      Realloc(size, live, at, usize).None? <==>
        usize == 0 || (b.usize < usize && b.size < need && forall a: nat :: !Unallocated(size, live, a, need))
  {
    NeedIs(usize);
    MallocFailsOnlyWhenItMust(size, live, usize);
  }

  /** What a successful mm_realloc gives: a live block of the size asked for, the same one as
      long as that is large enough, and otherwise the one mm_malloc finds while the old one is
      still live; all other blocks are as they were. */
  lemma {:induction false} ReallocGives(size: nat, live: seq<Block>, at: nat, usize: nat)
    requires PoolInv(size, live) && HasBlock(live, at) && Realloc(size, live, at, usize).Some?
    ensures var (live', to) := Realloc(size, live, at, usize).value;
      var b, need := BlockAt(live, at), (usize + 15) / 8 * 8;
      && HasBlock(live', to) && BlockAt(live', to).usize == usize
      && (usize <= b.usize || need <= b.size ==> to == at && BlockAt(live', to).size == b.size)
      && (b.usize < usize && b.size < need ==>
            && !HasBlock(live, to) && !HasBlock(live', at)
            && Malloc(size, live, usize) == Some(BlockAt(live', to)))
      && forall c: Block | c.at != at && c.at != to :: c in live' <==> c in live
  {
    NeedIs(usize);
    if InPlace(BlockAt(live, at), usize) {
      SetUsizeGives(live, at, usize);
    } else {
      var b := Malloc(size, live, usize).value;
      MallocIsFresh(size, live, usize);
      MallocIsCanonical(size, live, usize);
      InsertThenRemove(live, b);
      InsertKeepsBlock(live, b, at);
      RemoveOther(Insert(live, b), SIZEOF_MEM_POOL, at, b.at);
      RemovedIsGone(Insert(live, b), SIZEOF_MEM_POOL, at);
      forall c: Block | c.at != at && c.at != b.at ensures c in Remove(Insert(live, b), at) <==> c in live {
        OtherMembers(live, b, at, c);
      }
    }
  }

  lemma {:induction false} SetUsizeGives(live: seq<Block>, at: nat, usize: nat)
    requires HasBlock(live, at)
    ensures var live' := SetUsize(live, at, usize);
      && HasBlock(live', at) && BlockAt(live', at) == BlockAt(live, at).(usize := usize)
      && forall c: Block | c.at != at :: c in live' <==> c in live
  {
    var live' := SetUsize(live, at, usize);
    assert live == [live[0]] + live[1..] && live' == [live'[0]] + live'[1..];
    if live[0].at != at { SetUsizeGives(live[1..], at, usize); }
  }

  lemma {:induction false} NoneBelow(live: seq<Block>, from: nat, at: nat)
    requires Placed(live, from) && at < from
    ensures !HasBlock(live, at)
  {
    if live != [] { NoneBelow(live[1..], live[0].End(), at); }
  }

  lemma {:induction false} RemovedIsGone(live: seq<Block>, from: nat, at: nat)
    requires Placed(live, from)
    ensures !HasBlock(Remove(live, at), at)
  {
    if live != [] {
      if live[0].at == at {
        NoneBelow(live[1..], live[0].End(), at);
      } else {
        RemovedIsGone(live[1..], live[0].End(), at);
        assert Remove(live, at)[1..] == Remove(live[1..], at);
      }
    }
  }

  lemma {:induction false} OtherMembers(live: seq<Block>, b: Block, at: nat, c: Block)
    requires c.at != at && c.at != b.at
    ensures c in Insert(live, b) <==> c in live
    ensures c in Remove(live, at) <==> c in live
    ensures c in Remove(Insert(live, b), at) <==> c in live
  {
    InsertMember(live, b, c);
    RemoveMember(live, at, c);
    RemoveMember(Insert(live, b), at, c);
  }

  lemma {:induction false} InsertMember(live: seq<Block>, b: Block, c: Block)
    ensures c in Insert(live, b) <==> c == b || c in live
  {
    if live != [] && live[0].at <= b.at {
      InsertMember(live[1..], b, c);
      assert live == [live[0]] + live[1..];
    }
  }

  lemma {:induction false} RemoveMember(live: seq<Block>, at: nat, c: Block)
    requires c.at != at
    ensures c in Remove(live, at) <==> c in live
  {
    if live != [] {
      assert live == [live[0]] + live[1..];
      RemoveMember(live[1..], at, c);
    }
  }

  lemma {:induction false} LowestOfMinimal(live: seq<Block>, need: nat)
    requires Placed(live, SIZEOF_MEM_POOL) && 0 <= BestFit(FreeList(live), need)
    ensures var free, g := FreeList(live), FreeList(live)[BestFit(FreeList(live), need)];
      forall h | h in free && need <= h.size :: g.size < h.size || (g.size == h.size && g.at <= h.at)
  {
    var free := FreeList(live);
    var k := BestFit(free, need);
    BestFitIsFirstMinimal(free, need);
    GapsApart(live, SIZEOF_MEM_POOL);
    forall h | h in free && need <= h.size
      ensures free[k].size < h.size || (free[k].size == h.size && free[k].at <= h.at)
    {
      var i :| 0 <= i < |free| && free[i] == h;
    }
  }

  // ----- conservation -----

  function Available(size: nat, live: seq<Block>): int {
    size - Offset(live) + SumFree(FreeList(live))
  }

  /** What mm_available reports is what no live block occupies. */
  lemma {:induction false} Conservation(size: nat, live: seq<Block>)
    requires PoolInv(size, live)
    ensures Available(size, live) == size - SIZEOF_MEM_POOL - SumLive(live)
    ensures 0 <= Offset(live) - SIZEOF_MEM_POOL - SumFree(FreeList(live)) == SumLive(live)
  {
    SumsTile(live, SIZEOF_MEM_POOL);
  }

  // ----- whole runs -----

  datatype Op = Alloc(usize: nat) | Release(at: nat) | Resize(at: nat, usize: nat)

  /** Pointers given to mm_free and mm_realloc are live. */
  ghost predicate Legal(live: seq<Block>, op: Op) {
    match op
    case Alloc(_) => true
    case Release(at) => HasBlock(live, at)
    case Resize(at, _) => HasBlock(live, at)
  }

  ghost function Step(size: nat, live: seq<Block>, op: Op): seq<Block>
    requires Legal(live, op)
  {
    match op
    case Alloc(usize) =>
      (match Malloc(size, live, usize) case None => live case Some(b) => Insert(live, b))
    case Release(at) => Remove(live, at)
    case Resize(at, usize) =>
      (match Realloc(size, live, at, usize) case None => live case Some(r) => r.0)
  }

  lemma {:induction false} InsertKeepsBlock(live: seq<Block>, b: Block, at: nat)
    requires HasBlock(live, at) && !HasBlock(live, b.at)
    ensures HasBlock(Insert(live, b), at) && BlockAt(Insert(live, b), at) == BlockAt(live, at)
  {
    var live' := Insert(live, b);
    if b.at < live[0].at {
      assert live'[1..] == live;
    } else if live[0].at != at {
      InsertKeepsBlock(live[1..], b, at);
      assert live'[1..] == Insert(live[1..], b);
    }
  }

  lemma {:induction false} StepKeepsInv(size: nat, live: seq<Block>, op: Op)
    requires PoolInv(size, live) && Legal(live, op)
    ensures PoolInv(size, Step(size, live, op))
  {
    match op
    case Alloc(usize) =>
      if Malloc(size, live, usize).Some? { MallocIsCanonical(size, live, usize); LiveShape(live, SIZEOF_MEM_POOL); }
    case Release(at) =>
      RemoveKeepsPlaced(live, SIZEOF_MEM_POOL, at);
    case Resize(at, usize) =>
      if usize != 0 {
        LiveShape(live, SIZEOF_MEM_POOL);
        if InPlace(BlockAt(live, at), usize) {
          SetUsizeIsCanonical(live, SIZEOF_MEM_POOL, at, usize);
        } else if Malloc(size, live, usize).Some? {
          MallocIsCanonical(size, live, usize);
          var b := Malloc(size, live, usize).value;
          RemoveKeepsPlaced(Insert(live, b), SIZEOF_MEM_POOL, at);
        }
      }
  }

  ghost predicate LegalRun(size: nat, live: seq<Block>, ops: seq<Op>)
    decreases |ops|
  {
    ops == [] || (Legal(live, ops[0]) && LegalRun(size, Step(size, live, ops[0]), ops[1..]))
  }

  ghost function Run(size: nat, live: seq<Block>, ops: seq<Op>): seq<Block>
    requires LegalRun(size, live, ops)
    decreases |ops|
  {
    if ops == [] then live else Run(size, Step(size, live, ops[0]), ops[1..])
  }

  /** Every run from a fresh pool keeps the heap invariant; the free list it ends with is
      ascending, gapless between neighbours and clear of the spare area, and tiles the
      space below it together with the live blocks. */
  lemma {:induction false} RunsKeepTheHeap(size: nat, live: seq<Block>, ops: seq<Op>)
    requires PoolInv(size, live) && LegalRun(size, live, ops)
    ensures var live' := Run(size, live, ops);
      && PoolInv(size, live')
      && Apart(FreeList(live')) && Within(FreeList(live'), SIZEOF_MEM_POOL, Offset(live'))
      && (forall x | SIZEOF_MEM_POOL <= x < Offset(live') :: InLive(live', x) <==> !InFree(FreeList(live'), x))
      && Available(size, live') == size - SIZEOF_MEM_POOL - SumLive(live')
    decreases |ops|
  {
    if ops == [] {
      GapShape(live, SIZEOF_MEM_POOL);
      Conservation(size, live);
      forall x | SIZEOF_MEM_POOL <= x < Offset(live) ensures InLive(live, x) <==> !InFree(FreeList(live), x) {
        Tiled(live, SIZEOF_MEM_POOL, x);
      }
    } else {
      StepKeepsInv(size, live, ops[0]);
      RunsKeepTheHeap(size, Step(size, live, ops[0]), ops[1..]);
    }
  }
}
