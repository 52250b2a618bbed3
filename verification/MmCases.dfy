/** Each branch of mm_insert_chunk and mm_retrieve_chunk, and the spare branch of mm_malloc,
    takes a segment that encodes a pool to one that encodes the pool it should, and leaves
    every byte of every other live block alone. */
module MmCases {
  import opened Words
  import opened MmFreeList
  import opened MmSpec
  import opened MmLayout
  import opened MmSurgery

  /** `c` is the live block being freed; `k` free chunks lie below it. */
  ghost predicate Freeing(w: Memory, size: nat, live: seq<Block>, c: Chunk, k: nat) {
    && Holds(w, size, live) && HasBlock(live, c.at) && c.size == BlockAt(live, c.at).size
    && Position(FreeList(live), c.at, k)
  }

  lemma {:induction false} FreeFacts(size: nat, live: seq<Block>)
    requires SIZEOF_MEM_POOL <= size && PoolInv(size, live)
    ensures var free := FreeList(live);
      && Spread(free) && Apart(free) && Within(free, SIZEOF_MEM_POOL, Offset(live)) && Disjoint(free, live)
      && LiveWithin(live, SIZEOF_MEM_POOL, Offset(live)) && LiveApart(live)
      && SIZEOF_MEM_POOL <= Offset(live) <= size < WORD_LIMIT
  {
    GapShape(live, SIZEOF_MEM_POOL);
    LiveShape(live, SIZEOF_MEM_POOL);
    forall t | 0 <= t < |FreeList(live)| ensures Spot(FreeList(live)[t]) {
      assert FreeList(live)[t] in FreeList(live);
    }
  }

  lemma {:induction false} FreeGeometry(w: Memory, size: nat, live: seq<Block>, c: Chunk, k: nat)
    requires Freeing(w, size, live, c, k)
    ensures Geometry(FreeList(live), c, k) && Apart(FreeList(live)) && c.End() <= Offset(live)
    ensures forall t | 0 <= t < |FreeList(live)| :: FreeList(live)[t].End() < Offset(live)
  {
    var free := FreeList(live);
    FreeFacts(size, live);
    forall t | 0 <= t < |free|
      ensures free[t].End() < Offset(live) && (free[t].End() <= c.at || c.End() <= free[t].at)
    {
      assert free[t] in free && BlockAt(live, c.at) in live;
    }
  }

  ghost predicate InChunk(free: seq<Chunk>, s: Span) {
    free != [] && ((free[0].at <= s.lo && s.hi <= free[0].End()) || InChunk(free[1..], s))
  }

  lemma {:induction false} InChunkAt(free: seq<Chunk>, i: nat, s: Span)
    requires i < |free| && free[i].at <= s.lo && s.hi <= free[i].End()
    ensures InChunk(free, s)
  {
    if 0 < i { InChunkAt(free[1..], i - 1, s); }
  }

  lemma {:induction false} InChunkIsVacant(free: seq<Chunk>, live: seq<Block>, s: Span)
    requires InChunk(free, s) && Disjoint(free, live)
    ensures Clear(s, live)
  {
    if !(free[0].at <= s.lo && s.hi <= free[0].End()) {
      InChunkIsVacant(free[1..], live, s);
    } else {
      assert free[0] in free;
    }
  }

  /** A span inside the pool header, inside `c`, or inside a free chunk. */
  ghost predicate Site(free: seq<Chunk>, c: Chunk, s: Span) {
    s.hi <= SIZEOF_MEM_POOL || (c.at <= s.lo && s.hi <= c.End()) || InChunk(free, s)
  }

  lemma {:induction false} RemovedIsApart(live: seq<Block>, from: nat, at: nat)
    requires Placed(live, from) && HasBlock(live, at)
    ensures forall b | b in Remove(live, at) :: b in live && (b.End() <= at || BlockAt(live, at).End() <= b.at)
  {
    LiveShape(live[1..], live[0].End());
    if live[0].at != at {
      RemovedIsApart(live[1..], live[0].End(), at);
    }
  }

  lemma {:induction false} SiteIsClear(live: seq<Block>, c: Chunk, s: Span)
    requires Placed(live, SIZEOF_MEM_POOL) && HasBlock(live, c.at) && c.size == BlockAt(live, c.at).size
    requires Site(FreeList(live), c, s)
    ensures Clear(s, Remove(live, c.at))
  {
    RemovedIsApart(live, SIZEOF_MEM_POOL, c.at);
    LiveShape(live, SIZEOF_MEM_POOL);
    if InChunk(FreeList(live), s) {
      GapsDisjoint(live, SIZEOF_MEM_POOL);
      InChunkIsVacant(FreeList(live), live, s);
    }
  }

  /** What every case of a free has to show. */
  lemma {:induction false} FreedHolds(w: Memory, w': Memory, size: nat, live: seq<Block>, c: Chunk, x: Span, y: Span,
                                      z: Span, f: seq<Chunk>, o: nat)
    requires Holds(w, size, live) && HasBlock(live, c.at) && c.size == BlockAt(live, c.at).size
    requires OnlyAt(w, w', x, y, z)
    requires Site(FreeList(live), c, x) && Site(FreeList(live), c, y) && Site(FreeList(live), c, z)
    requires Freed(live, c, Spare(f, o))
    requires PoolHeader(w', size, o, |f|) && Chain(w', f)
    ensures Holds(w', size, Remove(live, c.at)) && WordsKept(w, w', Remove(live, c.at))
  {
    var live' := Remove(live, c.at);
    RemoveKeepsPlaced(live, SIZEOF_MEM_POOL, c.at);
    SiteIsClear(live, c, x);
    SiteIsClear(live, c, y);
    SiteIsClear(live, c, z);
    ClearKeepsWords(w, w', x, y, z, live');
    RemovedIsApart(live, SIZEOF_MEM_POOL, c.at);
    LiveShape(live', SIZEOF_MEM_POOL);
    WordsKeptHeadersKept(w, w', live', SIZEOF_MEM_POOL, Offset(live'));
  }

  /** The header words that a case does not write. */
  lemma {:induction false} HeaderKept(w: Memory, w': Memory, x: Span, y: Span, z: Span)
    requires OnlyAt(w, w', x, y, z)
    requires MP_FREECHUNKS + 4 <= x.lo && MP_FREECHUNKS + 4 <= y.lo && MP_FREECHUNKS + 4 <= z.lo
    ensures w'(MP_SIZE) == w(MP_SIZE) && w'(MP_OFFSET) == w(MP_OFFSET) && w'(MP_FREECHUNKS) == w(MP_FREECHUNKS)
    ensures COUNT + 4 <= x.lo && COUNT + 4 <= y.lo && COUNT + 4 <= z.lo ==> w'(COUNT) == w(COUNT)
  {
  }

  // ----- the six cases of a free -----

  /** `s` is the free list and spare offset that freeing `c` should leave. */
  ghost predicate Freed(live: seq<Block>, c: Chunk, s: Spare) {
    HasBlock(live, c.at) && FreeList(Remove(live, c.at)) == s.free && Offset(Remove(live, c.at)) == s.offset
  }

  lemma {:induction false} AbsorbFreed(live: seq<Block>, free: seq<Chunk>, c: Chunk)
    requires Placed(live, SIZEOF_MEM_POOL) && HasBlock(live, c.at) && c.size == BlockAt(live, c.at).size
    requires free == FreeList(live)
    ensures Freed(live, c, Absorb(free, Offset(live), c))
  {
    AbsorbIsCanonical(live, SIZEOF_MEM_POOL, c.at);
  }

  lemma {:induction false} SettleNext(before: seq<Chunk>, tail: seq<Chunk>, offset: nat, c: Chunk)
    requires tail != [] && c.End() == tail[0].at
    ensures Settle(tail, offset, c).Behind(before)
      == Spare(before + [Chunk(c.at, c.size + tail[0].size)] + tail[1..], offset)
  {
    var d := [Chunk(c.at, c.size + tail[0].size)];
    assert before + (d + tail[1..]) == before + d + tail[1..];
  }

  lemma {:induction false} SettleAlone(before: seq<Chunk>, tail: seq<Chunk>, offset: nat, c: Chunk)
    requires c.End() != offset && !(tail != [] && c.End() == tail[0].at)
    ensures Settle(tail, offset, c).Behind(before) == Spare(before + [c] + tail, offset)
  {
    assert before + ([c] + tail) == before + [c] + tail;
  }

  lemma {:induction false} CanonicalMergeBoth(live: seq<Block>, free: seq<Chunk>, c: Chunk, i: nat, d: Chunk)
    requires Placed(live, SIZEOF_MEM_POOL) && HasBlock(live, c.at) && c.size == BlockAt(live, c.at).size
    requires free == FreeList(live) && Apart(free) && Position(free, c.at, i + 1) && After(free, c, i + 1)
    requires i + 1 < |free| && c.End() == free[i + 1].at
      && d == Chunk(free[i].at, free[i].size + c.size + free[i + 1].size)
    ensures Freed(live, c, Spare(free[..i] + [d] + free[i + 2..], Offset(live)))
  {
    AbsorbFreed(live, free, c);
    AbsorbAfter(free, Offset(live), c, i);
    assert free[i + 1..][1..] == free[i + 2..];
    SettleNext(free[..i], free[i + 1..], Offset(live), Chunk(free[i].at, free[i].size + c.size));
  }

  lemma {:induction false} CanonicalMergePrev(live: seq<Block>, free: seq<Chunk>, c: Chunk, i: nat, d: Chunk)
    requires Placed(live, SIZEOF_MEM_POOL) && HasBlock(live, c.at) && c.size == BlockAt(live, c.at).size
    requires free == FreeList(live) && Apart(free) && Position(free, c.at, i + 1) && After(free, c, i + 1)
    requires !(i + 1 < |free| && c.End() == free[i + 1].at) && d == Chunk(free[i].at, free[i].size + c.size)
    ensures Freed(live, c,
      if c.End() == Offset(live) then Spare(free[..i] + free[i + 1..], d.at)
      else Spare(free[..i] + [d] + free[i + 1..], Offset(live)))
  {
    AbsorbFreed(live, free, c);
    AbsorbAfter(free, Offset(live), c, i);
    if c.End() != Offset(live) {
      SettleAlone(free[..i], free[i + 1..], Offset(live), d);
    }
  }

  lemma {:induction false} CanonicalMergeNext(live: seq<Block>, free: seq<Chunk>, c: Chunk, k: nat, d: Chunk)
    requires Placed(live, SIZEOF_MEM_POOL) && HasBlock(live, c.at) && c.size == BlockAt(live, c.at).size
    requires free == FreeList(live) && Apart(free) && Position(free, c.at, k) && !After(free, c, k)
    requires k < |free| && c.End() == free[k].at && d == Chunk(c.at, c.size + free[k].size)
    ensures Freed(live, c, Spare(free[..k] + [d] + free[k + 1..], Offset(live)))
  {
    AbsorbFreed(live, free, c);
    AbsorbApart(free, Offset(live), c, k);
    assert free[k..][1..] == free[k + 1..];
    SettleNext(free[..k], free[k..], Offset(live), c);
  }

  lemma {:induction false} CanonicalNoMerge(live: seq<Block>, free: seq<Chunk>, c: Chunk, k: nat)
    requires Placed(live, SIZEOF_MEM_POOL) && HasBlock(live, c.at) && c.size == BlockAt(live, c.at).size
    requires free == FreeList(live) && Apart(free) && Position(free, c.at, k) && !After(free, c, k)
    requires !(k < |free| && c.End() == free[k].at)
    ensures Freed(live, c,
      if c.End() == Offset(live) then Spare(free, c.at)
      else Spare(free[..k] + [c] + free[k..], Offset(live)))
  {
    AbsorbFreed(live, free, c);
    AbsorbApart(free, Offset(live), c, k);
    if c.End() == Offset(live) {
      assert free[..k] + free[k..] == free;
    } else {
      SettleAlone(free[..k], free[k..], Offset(live), c);
    }
  }

  lemma {:induction false} FreeMergeBoth(w: Memory, w1: Memory, w2: Memory, w3: Memory, size: nat, live: seq<Block>,
                                         free: seq<Chunk>, c: Chunk, i: nat, d: Chunk, next: nat, n: nat,
                                         rest: seq<Block>)
    requires n == |free| - 1
    requires Freeing(w, size, live, c, i + 1) && free == FreeList(live) && rest == Remove(live, c.at)
    requires After(free, c, i + 1) && i + 1 < |free| && c.End() == free[i + 1].at
    requires d == Chunk(free[i].at, free[i].size + c.size + free[i + 1].size) && next == Link(free, i + 2)
    requires Stored(w, w1, d.at, d.size)
    requires Stored(w1, w2, d.at + MC_NEXT, next)
    requires Stored(w2, w3, COUNT, n)
    ensures Holds(w3, size, rest) && WordsKept(w, w3, rest)
  {
    hide Remove, BlockAt, HasBlock, Placed, Absorb, Gaps, Top, Insert;
    FreeGeometry(w, size, live, c, i + 1);
    MergeBoth(w, w1, w2, w3, free, c, i, d, next);
    HeaderKept(w, w3, Word(d.at), Word(d.at + MC_NEXT), Word(COUNT));
    CanonicalMergeBoth(live, free, c, i, d);
    InChunkAt(free, i, Word(d.at));
    InChunkAt(free, i, Word(d.at + MC_NEXT));
    FreedHolds(w, w3, size, live, c, Word(d.at), Word(d.at + MC_NEXT), Word(COUNT), free[..i] + [d] + free[i + 2..],
      Offset(live));
  }

  lemma {:induction false} FreeMergePrevSpare(w: Memory, w1: Memory, w2: Memory, w3: Memory, size: nat,
                                              live: seq<Block>, free: seq<Chunk>, c: Chunk, i: nat, x: nat, next: nat,
                                              o: nat, n: nat, rest: seq<Block>)
    requires n == |free| - 1
    requires Freeing(w, size, live, c, i + 1) && free == FreeList(live) && rest == Remove(live, c.at)
    requires After(free, c, i + 1) && c.End() == Offset(live) && o == free[i].at
    requires x == Node(free, i) + MC_NEXT && next == Link(free, i + 1)
    requires Stored(w, w1, x, next)
    requires Stored(w1, w2, MP_OFFSET, o)
    requires Stored(w2, w3, COUNT, n)
    ensures Holds(w3, size, rest) && WordsKept(w, w3, rest)
  {
    hide Remove, BlockAt, HasBlock, Placed, Absorb, Gaps, Top, Insert;
    FreeGeometry(w, size, live, c, i + 1);
    MergePrevSpare(w, w1, w2, w3, free, c, i, x, o);
    NodeBelow(free, c, i + 1, i);
    CanonicalMergePrev(live, free, c, i, Chunk(free[i].at, free[i].size + c.size));
    LinkSite(free, c, i, x);
    FreedHolds(w, w3, size, live, c, Word(x), Word(MP_OFFSET), Word(COUNT), free[..i] + free[i + 1..], o);
  }

  lemma {:induction false} LinkSite(free: seq<Chunk>, c: Chunk, i: nat, x: nat)
    requires Spread(free) && i <= |free| && x == Node(free, i) + MC_NEXT
    ensures Site(free, c, Word(x))
  {
    if 0 < i { InChunkAt(free, i - 1, Word(x)); }
  }

  lemma {:induction false} FreeMergePrev(w: Memory, w': Memory, size: nat, live: seq<Block>, free: seq<Chunk>, c: Chunk,
                                         i: nat, d: Chunk, rest: seq<Block>)
    requires Freeing(w, size, live, c, i + 1) && free == FreeList(live) && rest == Remove(live, c.at)
    requires After(free, c, i + 1) && c.End() != Offset(live) && !(i + 1 < |free| && c.End() == free[i + 1].at)
    requires d == Chunk(free[i].at, free[i].size + c.size)
    requires Stored(w, w', d.at, d.size)
    ensures Holds(w', size, rest) && WordsKept(w, w', rest)
  {
    FreeGeometry(w, size, live, c, i + 1);
    MergePrev(w, w', free, c, i, d);
    HeaderKept(w, w', Word(d.at), Word(d.at), Word(d.at));
    CanonicalMergePrev(live, free, c, i, d);
    InChunkAt(free, i, Word(d.at));
    FreedHolds(w, w', size, live, c, Word(d.at), Word(d.at), Word(d.at), free[..i] + [d] + free[i + 1..], Offset(live));
  }

  lemma {:induction false} FreeMergeNext(w: Memory, w1: Memory, w2: Memory, w3: Memory, size: nat, live: seq<Block>,
                                         free: seq<Chunk>, c: Chunk, k: nat, d: Chunk, x: nat, next: nat,
                                         rest: seq<Block>)
    requires Freeing(w, size, live, c, k) && free == FreeList(live) && rest == Remove(live, c.at)
    requires !After(free, c, k) && k < |free| && c.End() == free[k].at
    requires d == Chunk(c.at, c.size + free[k].size) && x == Node(free, k) + MC_NEXT && next == Link(free, k + 1)
    requires Stored(w, w1, d.at, d.size)
    requires Stored(w1, w2, d.at + MC_NEXT, next)
    requires Stored(w2, w3, x, d.at)
    ensures Holds(w3, size, rest) && WordsKept(w, w3, rest)
  {
    FreeGeometry(w, size, live, c, k);
    MergeNext(w, w1, w2, w3, free, c, k, d, x, next);
    NodeBelow(free, c, k, k);
    HeaderKept(w, w3, Word(d.at), Word(d.at + MC_NEXT), Word(x));
    CanonicalMergeNext(live, free, c, k, d);
    LinkSite(free, c, k, x);
    FreedHolds(w, w3, size, live, c, Word(d.at), Word(d.at + MC_NEXT), Word(x), free[..k] + [d] + free[k + 1..],
      Offset(live));
  }

  lemma {:induction false} FreeMergeSpare(w: Memory, w': Memory, size: nat, live: seq<Block>, free: seq<Chunk>,
                                          c: Chunk, k: nat, rest: seq<Block>)
    requires Freeing(w, size, live, c, k) && free == FreeList(live) && rest == Remove(live, c.at)
    requires !After(free, c, k) && c.End() == Offset(live)
    requires Stored(w, w', MP_OFFSET, c.at)
    ensures Holds(w', size, rest) && WordsKept(w, w', rest)
  {
    FreeGeometry(w, size, live, c, k);
    MergeSpare(w, w', free, c, k, c.at);
    CanonicalNoMerge(live, free, c, k);
    FreedHolds(w, w', size, live, c, Word(MP_OFFSET), Word(MP_OFFSET), Word(MP_OFFSET), free, c.at);
  }

  lemma {:induction false} FreeLinkIn(w: Memory, w1: Memory, w2: Memory, w3: Memory, size: nat, live: seq<Block>,
                                      free: seq<Chunk>, c: Chunk, k: nat, x: nat, next: nat, n: nat, rest: seq<Block>)
    requires n == |free| + 1
    requires Freeing(w, size, live, c, k) && free == FreeList(live) && rest == Remove(live, c.at)
    requires !After(free, c, k) && c.End() != Offset(live) && !(k < |free| && c.End() == free[k].at)
    requires x == Node(free, k) + MC_NEXT && next == Link(free, k)
    requires Stored(w, w1, c.at + MC_NEXT, next)
    requires Stored(w1, w2, x, c.at)
    requires Stored(w2, w3, COUNT, n)
    ensures Holds(w3, size, rest) && WordsKept(w, w3, rest)
  {
    FreeGeometry(w, size, live, c, k);
    LinkIn(w, w1, w2, w3, free, c, k, x, next);
    NodeBelow(free, c, k, k);
    HeaderKept(w, w3, Word(c.at + MC_NEXT), Word(x), Word(COUNT));
    CanonicalNoMerge(live, free, c, k);
    LinkSite(free, c, k, x);
    FreedHolds(w, w3, size, live, c, Word(c.at + MC_NEXT), Word(x), Word(COUNT), free[..k] + [c] + free[k..],
      Offset(live));
  }

  // ----- allocation -----

  /** The pool holds `live` and has set `b` aside; only mc_usize of `b` is still missing. */
  ghost predicate Reserved(w: Memory, size: nat, live: seq<Block>, b: Block) {
    && SIZEOF_MEM_POOL <= size
    && PoolInv(size, live) && PoolInv(size, Insert(live, b)) && b in Insert(live, b)
    && PoolHeader(w, size, Offset(Insert(live, b)), |FreeList(Insert(live, b))|)
    && Chain(w, FreeList(Insert(live, b)))
    && Headers(w, live) && w(b.at) == b.size
    && (forall c | c in live :: b.End() <= c.at || c.End() <= b.at)
  }

  lemma {:induction false} InsertMembers(live: seq<Block>, b: Block)
    ensures forall c :: c in Insert(live, b) <==> c == b || c in live
  {
    if live != [] && live[0].at <= b.at {
      InsertMembers(live[1..], b);
    }
  }

  lemma {:induction false} SetUserHeaders(w: Memory, w': Memory, live: seq<Block>, b: Block, from: nat, top: nat)
    requires LiveWithin(live, from, top) && Headers(w, live) && w(b.at) == b.size && MIN_CHUNK <= b.size
    requires forall c | c in live :: b.End() <= c.at || c.End() <= b.at
    requires Stored(w, w', b.at + MC_USIZE, b.usize)
    ensures Headers(w', Insert(live, b)) && WordsKept(w, w', live)
  {
    var s := Word(b.at + MC_USIZE);
    InsertMembers(live, b);
    assert Clear(s, live);
    ClearKeepsWords(w, w', s, s, s, live);
    WordsKeptHeadersKept(w, w', live, from, top);
  }

  /** Setting mc_usize completes the allocation. */
  lemma {:induction false} SetUser(w: Memory, w': Memory, size: nat, live: seq<Block>, b: Block)
    requires Reserved(w, size, live, b) && Stored(w, w', b.at + MC_USIZE, b.usize)
    ensures Holds(w', size, Insert(live, b)) && WordsKept(w, w', live)
  {
    var live' := Insert(live, b);
    FreeFacts(size, live');
    assert SIZEOF_MEM_POOL <= b.at && MIN_CHUNK <= b.size;
    assert LiveWithin(live, SIZEOF_MEM_POOL, Offset(live)) by { LiveShape(live, SIZEOF_MEM_POOL); }
    SetUserHeaders(w, w', live, b, SIZEOF_MEM_POOL, Offset(live));
    OwnWordKeepsChain(w, w', FreeList(live'), b.at + MC_USIZE, live', b);
  }

  lemma {:induction false} OwnWordKeepsChain(w: Memory, w': Memory, free: seq<Chunk>, x: nat, live: seq<Block>,
                                             b: Block)
    requires Chain(w, free) && Spread(free) && Disjoint(free, live) && b in live
    requires SIZEOF_MEM_POOL <= b.at <= x && x + 4 <= b.End() && forall a: int | Off(a, Word(x)) :: w'(a) == w(a)
    ensures Chain(w', free)
  {
    forall i | 0 <= i < |free| ensures Off(free[i].at, Word(x)) && Off(free[i].at + MC_NEXT, Word(x)) {
      assert free[i] in free;
    }
    forall i | 0 <= i <= |free| ensures w'(Node(free, i) + MC_NEXT) == Link(free, i) {
      assert 0 < i ==> Off(free[i - 1].at + MC_NEXT, Word(x));
    }
  }

  /** A span inside the pool header, a free chunk, or the spare area. */
  ghost predicate Vacant(free: seq<Chunk>, offset: nat, s: Span) {
    s.hi <= SIZEOF_MEM_POOL || offset <= s.lo || InChunk(free, s)
  }

  lemma {:induction false} VacantIsClear(live: seq<Block>, s: Span)
    requires Placed(live, SIZEOF_MEM_POOL) && Vacant(FreeList(live), Offset(live), s)
    ensures Clear(s, live)
  {
    LiveShape(live, SIZEOF_MEM_POOL);
    if InChunk(FreeList(live), s) {
      GapsDisjoint(live, SIZEOF_MEM_POOL);
      InChunkIsVacant(FreeList(live), live, s);
    }
  }

  lemma {:induction false} ReservedHolds(w: Memory, w': Memory, size: nat, live: seq<Block>, b: Block, x: Span, y: Span,
                                         z: Span, f: seq<Chunk>, o: nat)
    requires Holds(w, size, live) && OnlyAt(w, w', x, y, z)
    requires Vacant(FreeList(live), Offset(live), x) && Vacant(FreeList(live), Offset(live), y)
      && Vacant(FreeList(live), Offset(live), z)
    requires Vacant(FreeList(live), Offset(live), Span(b.at, b.End())) && SIZEOF_MEM_POOL < b.End()
    requires PoolInv(size, Insert(live, b)) && f == FreeList(Insert(live, b)) && o == Offset(Insert(live, b))
    requires PoolHeader(w', size, o, |f|) && Chain(w', f) && w'(b.at) == b.size
    ensures Reserved(w', size, live, b) && WordsKept(w, w', live)
  {
    VacantIsClear(live, x);
    VacantIsClear(live, y);
    VacantIsClear(live, z);
    VacantIsClear(live, Span(b.at, b.End()));
    ClearKeepsWords(w, w', x, y, z, live);
    LiveShape(live, SIZEOF_MEM_POOL);
    WordsKeptHeadersKept(w, w', live, SIZEOF_MEM_POOL, Offset(live));
    InsertMembers(live, b);
  }

  lemma {:induction false} LinkVacant(free: seq<Chunk>, offset: nat, i: nat, x: nat)
    requires Spread(free) && i <= |free| && x == Node(free, i) + MC_NEXT
    ensures Vacant(free, offset, Word(x))
  {
    if 0 < i { InChunkAt(free, i - 1, Word(x)); }
  }

  lemma {:induction false} CanonicalTake(live: seq<Block>, free: seq<Chunk>, k: nat, b: Block)
    requires Placed(live, SIZEOF_MEM_POOL) && free == FreeList(live) && k < |free| && Fits(b)
    requires b.at == free[k].at && (b.size == free[k].size || b.size + MIN_CHUNK <= free[k].size)
    ensures Placed(Insert(live, b), SIZEOF_MEM_POOL) && Offset(Insert(live, b)) == Offset(live)
    ensures FreeList(Insert(live, b)) == Take(free, b.at, b.size)
  {
    assert free[k] in Gaps(live, SIZEOF_MEM_POOL);
    TakeIsCanonical(live, SIZEOF_MEM_POOL, free[k], b);
  }

  lemma {:induction false} TakePartAt(free: seq<Chunk>, k: nat, n: nat, d: Chunk)
    requires Apart(free) && k < |free| && n < free[k].size && d == Chunk(free[k].at + n, free[k].size - n)
    ensures Take(free, free[k].at, n) == free[..k] + [d] + free[k + 1..]
  {
    TakeAt(free, k, n);
  }

  /** mm_retrieve_chunk splits chunk `k`: `b` leaves the list, `d` stays. */
  lemma {:induction false} ReserveSplit(w: Memory, w1: Memory, w2: Memory, w3: Memory, w4: Memory, size: nat,
                       live: seq<Block>, free: seq<Chunk>, k: nat, b: Block, d: Chunk, x: nat, next: nat)
    requires Holds(w, size, live) && free == FreeList(live) && k < |free| && Fits(b)
    requires b.at == free[k].at && b.size + MIN_CHUNK <= free[k].size
    requires d == Chunk(b.at + b.size, free[k].size - b.size)
    requires x == Node(free, k) + MC_NEXT && next == Link(free, k + 1)
    requires Stored(w, w1, b.at, b.size)
    requires Stored(w1, w2, d.at, d.size)
    requires Stored(w2, w3, d.at + MC_NEXT, next)
    requires Stored(w3, w4, x, d.at)
    ensures Reserved(w4, size, live, b) && WordsKept(w, w4, live)
  {
    var s := Span(free[k].at, free[k].End());
    FreeFacts(size, live);
    SplitChunk(w, w1, w2, w3, w4, free, k, b.size, d, x, next);
    CanonicalTake(live, free, k, b);
    TakePartAt(free, k, b.size, d);
    NodeOfSpread(free, k);
    HeaderKept(w, w4, s, Word(x), Word(x));
    InChunkAt(free, k, s);
    InChunkAt(free, k, Span(b.at, b.End()));
    LinkVacant(free, Offset(live), k, x);
    ReservedHolds(w, w4, size, live, b, s, Word(x), Word(x), free[..k] + [d] + free[k + 1..], Offset(live));
  }

  lemma {:induction false} TakeAllAt(free: seq<Chunk>, k: nat)
    requires Apart(free) && k < |free|
    ensures Take(free, free[k].at, free[k].size) == free[..k] + free[k + 1..]
  {
    TakeAt(free, k, free[k].size);
    assert free[..k] + [] + free[k + 1..] == free[..k] + free[k + 1..];
  }

  /** mm_retrieve_chunk takes chunk `k` whole. */
  lemma {:induction false} ReserveWhole(w: Memory, w1: Memory, w2: Memory, size: nat, live: seq<Block>,
                                        free: seq<Chunk>, k: nat, b: Block, x: nat, next: nat, n: nat)
    requires Holds(w, size, live) && free == FreeList(live) && k < |free| && Fits(b) && n == |free| - 1
    requires b.at == free[k].at && b.size == free[k].size
    requires x == Node(free, k) + MC_NEXT && next == Link(free, k + 1)
    requires Stored(w, w1, x, next)
    requires Stored(w1, w2, COUNT, n)
    ensures Reserved(w2, size, live, b) && WordsKept(w, w2, live)
  {
    FreeFacts(size, live);
    TakeWhole(w, w1, w2, free, k, x, next);
    CanonicalTake(live, free, k, b);
    TakeAllAt(free, k);
    NodeOfSpread(free, k);
    HeaderKept(w, w2, Word(x), Word(COUNT), Word(COUNT));
    InChunkAt(free, k, Span(b.at, b.End()));
    LinkVacant(free, Offset(live), k, x);
    ReservedHolds(w, w2, size, live, b, Word(x), Word(COUNT), Word(COUNT), free[..k] + free[k + 1..], Offset(live));
  }

  /** mm_malloc carves `b` from the spare area. */
  lemma {:induction false} Carve(w: Memory, w1: Memory, w2: Memory, w3: Memory, size: nat, live: seq<Block>, b: Block,
                                 o: nat, live': seq<Block>)
    requires Holds(w, size, live) && Fits(b) && b.at == Offset(live) && o == b.End() <= size && live' == Insert(live, b)
    requires Stored(w, w1, b.at, b.size)
    requires Stored(w1, w2, b.at + MC_USIZE, b.usize)
    requires Stored(w2, w3, MP_OFFSET, o)
    ensures Holds(w3, size, live') && WordsKept(w, w3, live)
  {
    hide Remove, BlockAt, HasBlock, Placed, Absorb, Gaps, Top, Insert;
    FreeFacts(size, live);
    ThreeStores(w, w1, w2, w3, b.at, b.size, b.at + MC_USIZE, b.usize, MP_OFFSET, o);
    CarveIsCanonical(live, SIZEOF_MEM_POOL, b);
    CarveKeepsChain(w, w3, FreeList(live), b);
    CarveKeepsHeaders(w, w3, live, b);
  }

  lemma {:induction false} CarveKeepsHeaders(w: Memory, w': Memory, live: seq<Block>, b: Block)
    requires Placed(live, SIZEOF_MEM_POOL) && Headers(w, live) && b.at == Offset(live)
    requires OnlyAt(w, w', Word(b.at), Word(b.at + MC_USIZE), Word(MP_OFFSET))
    requires w'(b.at) == b.size && w'(b.at + MC_USIZE) == b.usize
    ensures Headers(w', Insert(live, b)) && WordsKept(w, w', live)
  {
    VacantIsClear(live, Word(b.at));
    VacantIsClear(live, Word(b.at + MC_USIZE));
    VacantIsClear(live, Word(MP_OFFSET));
    ClearKeepsWords(w, w', Word(b.at), Word(b.at + MC_USIZE), Word(MP_OFFSET), live);
    LiveShape(live, SIZEOF_MEM_POOL);
    WordsKeptHeadersKept(w, w', live, SIZEOF_MEM_POOL, Offset(live));
    InsertMembers(live, b);
  }

  lemma {:induction false} CarveKeepsChain(w: Memory, w': Memory, free: seq<Chunk>, b: Block)
    requires Chain(w, free) && Spread(free) && forall g | g in free :: g.End() < b.at
    requires SIZEOF_MEM_POOL <= b.at && OnlyAt(w, w', Word(b.at), Word(b.at + MC_USIZE), Word(MP_OFFSET))
    ensures Chain(w', free)
  {
    forall i | 0 <= i < |free|
      ensures free[i].End() < b.at && w'(free[i].at) == free[i].size
      ensures w'(free[i].at + MC_NEXT) == w(free[i].at + MC_NEXT)
    {
      assert free[i] in free;
    }
    forall i | 0 <= i <= |free| ensures w'(Node(free, i) + MC_NEXT) == Link(free, i) {
    }
  }
}
