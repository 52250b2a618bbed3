/** The word writes of each case of mm_insert_chunk and mm_retrieve_chunk, on the chain of
    free chunks alone. */
module MmSurgery {
  import opened Words
  import opened MmFreeList
  import opened MmSpec
  import opened MmLayout

  /** Where things lie while `c` is being freed: `k` free chunks below it, the rest above. */
  ghost predicate Geometry(free: seq<Chunk>, c: Chunk, k: nat) {
    && k <= |free|
    && (forall t | 0 <= t < k :: free[t].End() <= c.at)
    && (forall t | k <= t < |free| :: c.End() <= free[t].at)
    && (forall t | 0 <= t < |free| :: Spot(free[t]))
    && (forall s, t | 0 <= s < t < |free| :: free[s].End() < free[t].at)
    && Spot(c)
  }

  /** A chunk past the pool header, with room for its own. */
  ghost predicate Spot(c: Chunk) {
    SIZEOF_MEM_POOL <= c.at && MIN_CHUNK <= c.size
  }

  lemma {:induction false} ThreeStores(w: Memory, w1: Memory, w2: Memory, w3: Memory, a: int, x: int, b: int, y: int,
                                       c: int, z: int)
    requires Stored(w, w1, a, x) && Stored(w1, w2, b, y) && Stored(w2, w3, c, z)
    requires Off(a, Word(b)) && Off(b, Word(c)) && Off(a, Word(c))
    ensures OnlyAt(w, w3, Word(a), Word(b), Word(c)) && w3(a) == x && w3(b) == y && w3(c) == z
  {
  }

  /** Writing `s` touches no chunk size and no link outside nodes i..j. */
  ghost predicate Spared(free: seq<Chunk>, i: nat, j: nat, s: Span)
    requires i <= j <= |free|
  {
    && (forall t | 0 <= t < |free| && (t < i || j <= t) :: Off(free[t].at, s))
    && (forall t | 0 <= t <= |free| && (t < i || j < t) :: Off(Node(free, t) + MC_NEXT, s))
  }

  lemma {:induction false} SparedInside(free: seq<Chunk>, c: Chunk, k: nat, i: nat, j: nat, s: Span)
    requires Geometry(free, c, k) && i < j <= |free|
    requires free[i].at <= s.lo && s.hi <= free[i].End()
    ensures Spared(free, i, j, s)
  {
  }

  lemma {:induction false} SparedHeader(free: seq<Chunk>, c: Chunk, k: nat, i: nat, j: nat, s: Span)
    requires Geometry(free, c, k) && i <= j <= |free|
    requires 0 <= s.lo && s.hi <= MP_FREECHUNKS + MC_NEXT
    ensures Spared(free, i, j, s)
  {
  }

  lemma {:induction false} SparedNode(free: seq<Chunk>, c: Chunk, k: nat, i: nat, j: nat, x: nat)
    requires Geometry(free, c, k) && i <= j <= |free| && x == Node(free, i) + MC_NEXT
    ensures Spared(free, i, j, Word(x))
  {
  }

  lemma {:induction false} SparedForeign(free: seq<Chunk>, c: Chunk, k: nat, i: nat, j: nat, s: Span)
    requires Geometry(free, c, k) && i <= j <= |free|
    requires c.at <= s.lo && s.hi <= c.End()
    ensures Spared(free, i, j, s)
  {
  }

  lemma {:induction false} NodeBelow(free: seq<Chunk>, c: Chunk, k: nat, i: nat)
    requires Geometry(free, c, k) && i <= k
    ensures MP_FREECHUNKS <= Node(free, i) && Node(free, i) + MC_NEXT + 4 <= c.at
  {
  }

  /** What a relinking may rely on, once nodes i..j no longer count. */
  lemma {:induction false} ChainKept(w: Memory, w': Memory, a: Span, b: Span, c: Span, free: seq<Chunk>, i: nat, j: nat)
    requires Chain(w, free) && OnlyAt(w, w', a, b, c) && i <= j <= |free|
    requires Spared(free, i, j, a) && Spared(free, i, j, b) && Spared(free, i, j, c)
    ensures forall t | 0 <= t < |free| && (t < i || j <= t) :: w'(free[t].at) == free[t].size
    ensures forall t | 0 <= t <= |free| && (t < i || j < t) :: w'(Node(free, t) + MC_NEXT) == Link(free, t)
  {
  }

  /** Relinking with the spans `a`, `b` and `c` changed. */
  lemma {:induction false} Splice(w: Memory, w': Memory, a: Span, b: Span, c: Span, free: seq<Chunk>, i: nat, j: nat,
                                  mid: seq<Chunk>)
    requires Chain(w, free) && OnlyAt(w, w', a, b, c) && i <= j <= |free| && |mid| <= 1
    requires Spared(free, i, j, a) && Spared(free, i, j, b) && Spared(free, i, j, c)
    requires w'(Node(free, i) + MC_NEXT) == if mid == [] then Link(free, j) else mid[0].at
    requires mid != [] ==> w'(mid[0].at) == mid[0].size && w'(mid[0].at + MC_NEXT) == Link(free, j)
    ensures Chain(w', free[..i] + mid + free[j..])
  {
    ChainKept(w, w', a, b, c, free, i, j);
    Relink(w, w', free, i, j, mid);
  }

  /** The same when nothing takes the place of chunks i..j. */
  lemma {:induction false} Cut(w: Memory, w': Memory, a: Span, b: Span, c: Span, free: seq<Chunk>, i: nat, j: nat)
    requires Chain(w, free) && OnlyAt(w, w', a, b, c) && i <= j <= |free|
    requires Spared(free, i, j, a) && Spared(free, i, j, b) && Spared(free, i, j, c)
    requires w'(Node(free, i) + MC_NEXT) == Link(free, j)
    ensures Chain(w', free[..i] + free[j..])
  {
    Splice(w, w', a, b, c, free, i, j, []);
    assert free[..i] + [] + free[j..] == free[..i] + free[j..];
  }

  // ----- the six cases of mm_insert_chunk -----

  /** Merge with the previous chunk, `i`, and the next one into `d`. */
  lemma {:induction false} MergeBoth(w: Memory, w1: Memory, w2: Memory, w3: Memory, free: seq<Chunk>, c: Chunk, i: nat,
                                     d: Chunk, next: nat)
    requires Geometry(free, c, i + 1) && Chain(w, free)
    requires After(free, c, i + 1) && i + 1 < |free| && c.End() == free[i + 1].at
    requires d == Chunk(free[i].at, free[i].size + c.size + free[i + 1].size) && next == Link(free, i + 2)
    requires Stored(w, w1, d.at, d.size)
    requires Stored(w1, w2, d.at + MC_NEXT, next)
    requires Stored(w2, w3, COUNT, |free| - 1)
    ensures Chain(w3, free[..i] + [d] + free[i + 2..])
    ensures OnlyAt(w, w3, Word(d.at), Word(d.at + MC_NEXT), Word(COUNT)) && w3(COUNT) == |free| - 1
  {
    ThreeStores(w, w1, w2, w3, d.at, d.size, d.at + MC_NEXT, next, COUNT, |free| - 1);
    SparedInside(free, c, i + 1, i, i + 2, Word(d.at));
    SparedInside(free, c, i + 1, i, i + 2, Word(d.at + MC_NEXT));
    SparedHeader(free, c, i + 1, i, i + 2, Word(COUNT));
    assert w(Node(free, i) + MC_NEXT) == d.at;
    Splice(w, w3, Word(d.at), Word(d.at + MC_NEXT), Word(COUNT), free, i, i + 2, [d]);
  }

  /** Merge with the previous chunk, `i`, and the spare area, which then starts at `o`. */
  lemma {:induction false} MergePrevSpare(w: Memory, w1: Memory, w2: Memory, w3: Memory, free: seq<Chunk>, c: Chunk,
                                          i: nat, x: nat, o: nat)
    requires Geometry(free, c, i + 1) && Chain(w, free) && After(free, c, i + 1)
    requires x == Node(free, i) + MC_NEXT
    requires Stored(w, w1, x, Link(free, i + 1))
    requires Stored(w1, w2, MP_OFFSET, o)
    requires Stored(w2, w3, COUNT, |free| - 1)
    ensures Chain(w3, free[..i] + free[i + 1..])
    ensures OnlyAt(w, w3, Word(x), Word(MP_OFFSET), Word(COUNT))
    ensures w3(COUNT) == |free| - 1 && w3(MP_OFFSET) == o
  {
    NodeBelow(free, c, i + 1, i);
    ThreeStores(w, w1, w2, w3, x, Link(free, i + 1), MP_OFFSET, o, COUNT, |free| - 1);
    SparedNode(free, c, i + 1, i, i + 1, x);
    SparedHeader(free, c, i + 1, i, i + 1, Word(MP_OFFSET));
    SparedHeader(free, c, i + 1, i, i + 1, Word(COUNT));
    Cut(w, w3, Word(x), Word(MP_OFFSET), Word(COUNT), free, i, i + 1);
  }

  /** Merge with the previous chunk, `i`, into `d`. */
  lemma {:induction false} MergePrev(w: Memory, w': Memory, free: seq<Chunk>, c: Chunk, i: nat, d: Chunk)
    requires Geometry(free, c, i + 1) && Chain(w, free) && After(free, c, i + 1)
    requires d == Chunk(free[i].at, free[i].size + c.size)
    requires Stored(w, w', d.at, d.size)
    ensures Chain(w', free[..i] + [d] + free[i + 1..])
    ensures OnlyAt(w, w', Word(d.at), Word(d.at), Word(d.at))
  {
    SparedInside(free, c, i + 1, i, i + 1, Word(d.at));
    assert w(Node(free, i) + MC_NEXT) == d.at && w(Node(free, i + 1) + MC_NEXT) == Link(free, i + 1);
    NodeBelow(free, c, i + 1, i);
    Splice(w, w', Word(d.at), Word(d.at), Word(d.at), free, i, i + 1, [d]);
  }

  /** Merge with the next chunk into `d`. */
  lemma {:induction false} MergeNext(w: Memory, w1: Memory, w2: Memory, w3: Memory, free: seq<Chunk>, c: Chunk, k: nat,
                                     d: Chunk, x: nat, next: nat)
    requires Geometry(free, c, k) && Chain(w, free) && k < |free| && c.End() == free[k].at
    requires d == Chunk(c.at, c.size + free[k].size) && x == Node(free, k) + MC_NEXT && next == Link(free, k + 1)
    requires Stored(w, w1, d.at, d.size)
    requires Stored(w1, w2, d.at + MC_NEXT, next)
    requires Stored(w2, w3, x, d.at)
    ensures Chain(w3, free[..k] + [d] + free[k + 1..])
    ensures OnlyAt(w, w3, Word(d.at), Word(d.at + MC_NEXT), Word(x))
  {
    NodeBelow(free, c, k, k);
    ThreeStores(w, w1, w2, w3, d.at, d.size, d.at + MC_NEXT, next, x, d.at);
    SparedForeign(free, c, k, k, k + 1, Word(d.at));
    SparedForeign(free, c, k, k, k + 1, Word(d.at + MC_NEXT));
    SparedNode(free, c, k, k, k + 1, x);
    Splice(w, w3, Word(d.at), Word(d.at + MC_NEXT), Word(x), free, k, k + 1, [d]);
  }

  /** Merge with the spare area, which then starts at `o`. */
  lemma {:induction false} MergeSpare(w: Memory, w': Memory, free: seq<Chunk>, c: Chunk, k: nat, o: nat)
    requires Geometry(free, c, k) && Chain(w, free)
    requires Stored(w, w', MP_OFFSET, o)
    ensures Chain(w', free)
    ensures OnlyAt(w, w', Word(MP_OFFSET), Word(MP_OFFSET), Word(MP_OFFSET))
  {
    SparedHeader(free, c, k, k, k, Word(MP_OFFSET));
    NodeBelow(free, c, k, k);
    assert w(Node(free, k) + MC_NEXT) == Link(free, k);
    Cut(w, w', Word(MP_OFFSET), Word(MP_OFFSET), Word(MP_OFFSET), free, k, k);
    assert free[..k] + free[k..] == free;
  }

  /** No merging: `c` becomes a chunk of the list. */
  lemma {:induction false} LinkIn(w: Memory, w1: Memory, w2: Memory, w3: Memory, free: seq<Chunk>, c: Chunk, k: nat,
                                  x: nat, next: nat)
    requires Geometry(free, c, k) && Chain(w, free) && w(c.at) == c.size
    requires x == Node(free, k) + MC_NEXT && next == Link(free, k)
    requires Stored(w, w1, c.at + MC_NEXT, next)
    requires Stored(w1, w2, x, c.at)
    requires Stored(w2, w3, COUNT, |free| + 1)
    ensures Chain(w3, free[..k] + [c] + free[k..])
    ensures OnlyAt(w, w3, Word(c.at + MC_NEXT), Word(x), Word(COUNT)) && w3(COUNT) == |free| + 1
  {
    NodeBelow(free, c, k, k);
    ThreeStores(w, w1, w2, w3, c.at + MC_NEXT, next, x, c.at, COUNT, |free| + 1);
    SparedForeign(free, c, k, k, k, Word(c.at + MC_NEXT));
    SparedNode(free, c, k, k, k, x);
    SparedHeader(free, c, k, k, k, Word(COUNT));
    assert w3(c.at) == w(c.at);
    Splice(w, w3, Word(c.at + MC_NEXT), Word(x), Word(COUNT), free, k, k, [c]);
  }

  // ----- the two cases of mm_retrieve_chunk -----

  ghost predicate Spread(free: seq<Chunk>) {
    && (forall t | 0 <= t < |free| :: Spot(free[t]))
    && (forall s, t | 0 <= s < t < |free| :: free[s].End() < free[t].at)
  }

  /** Split chunk `k`: its first `n` bytes leave the list, the rest stays as `d`. */
  lemma {:induction false} SplitChunk(w: Memory, w1: Memory, w2: Memory, w3: Memory, w4: Memory, free: seq<Chunk>,
                                      k: nat, n: nat, d: Chunk, x: nat, next: nat)
    requires Spread(free) && Chain(w, free) && k < |free|
    requires MIN_CHUNK <= n && n + MIN_CHUNK <= free[k].size && d == Chunk(free[k].at + n, free[k].size - n)
    requires x == Node(free, k) + MC_NEXT && next == Link(free, k + 1)
    requires Stored(w, w1, free[k].at, n)
    requires Stored(w1, w2, d.at, d.size)
    requires Stored(w2, w3, d.at + MC_NEXT, next)
    requires Stored(w3, w4, x, d.at)
    ensures Chain(w4, free[..k] + [d] + free[k + 1..])
    ensures OnlyAt(w, w4, Span(free[k].at, free[k].End()), Word(x), Word(x))
    ensures w4(free[k].at) == n
  {
    var s := Span(free[k].at, free[k].End());
    NodeOfSpread(free, k);
    FourStores(w, w1, w2, w3, w4, s.lo, n, d.at, d.size, d.at + MC_NEXT, next, x, d.at, s);
    SpreadSpares(free, k, s, x);
    Splice(w, w4, s, Word(x), Word(x), free, k, k + 1, [d]);
  }

  lemma {:induction false} NodeOfSpread(free: seq<Chunk>, k: nat)
    requires Spread(free) && k < |free|
    ensures MP_FREECHUNKS <= Node(free, k) && Node(free, k) + MC_NEXT + 4 <= free[k].at
  {
  }

  lemma {:induction false} FourStores(w: Memory, w1: Memory, w2: Memory, w3: Memory, w4: Memory,
                     a: int, x: int, b: int, y: int, c: int, z: int, d: int, v: int, s: Span)
    requires Stored(w, w1, a, x) && Stored(w1, w2, b, y) && Stored(w2, w3, c, z) && Stored(w3, w4, d, v)
    requires s.lo <= a && a + 4 <= b && b + 4 <= c && c + 4 <= s.hi && d + 4 <= a
    ensures OnlyAt(w, w4, s, Word(d), Word(d)) && w4(a) == x && w4(b) == y && w4(c) == z && w4(d) == v
  {
  }

  lemma {:induction false} SpreadSpares(free: seq<Chunk>, k: nat, s: Span, x: nat)
    requires Spread(free) && k < |free| && x == Node(free, k) + MC_NEXT
    requires free[k].at <= s.lo && s.hi <= free[k].End()
    ensures Spared(free, k, k + 1, s) && Spared(free, k, k + 1, Word(x)) && Spared(free, k, k + 1, Word(COUNT))
  {
  }

  /** Chunk `k` leaves the list as a whole. */
  lemma {:induction false} TakeWhole(w: Memory, w1: Memory, w2: Memory, free: seq<Chunk>, k: nat, x: nat, next: nat)
    requires Spread(free) && Chain(w, free) && k < |free|
    requires x == Node(free, k) + MC_NEXT && next == Link(free, k + 1)
    requires Stored(w, w1, x, next)
    requires Stored(w1, w2, COUNT, |free| - 1)
    ensures Chain(w2, free[..k] + free[k + 1..])
    ensures OnlyAt(w, w2, Word(x), Word(COUNT), Word(COUNT))
    ensures w2(COUNT) == |free| - 1 && w2(free[k].at) == free[k].size
  {
    NodeOfSpread(free, k);
    SpreadSpares(free, k, Span(free[k].at, free[k].at), x);
    Cut(w, w2, Word(x), Word(COUNT), Word(COUNT), free, k, k + 1);
  }
}
