/** How a pool lies in its segment, and how few words each operation has to change.

    The first 24 bytes are the pool header: mp_size, mp_offset, and the sentinel chunk
    mp_freechunks, whose mc_size stays 0 and whose mc_usize counts the free chunks. Every
    chunk starts with mc_size and mc_usize; the word after them is the free-list link of a
    free chunk and the first user word of a live one. Pointers are offsets into the
    segment, 0 being NULL. */
module MmLayout {
  import opened Words
  import opened MmFreeList
  import opened MmSpec

  const MP_SIZE: nat := 0
  const MP_OFFSET: nat := 4
  const MP_FREECHUNKS: nat := 8
  const MC_USIZE: nat := 4
  const MC_NEXT: nat := 8
  const COUNT: nat := 12

  /** Node 0 of the chain is the sentinel, node i + 1 is free chunk i. */
  function Node(free: seq<Chunk>, i: nat): nat
    requires i <= |free|
  {
    if i == 0 then MP_FREECHUNKS else free[i - 1].at
  }

  /** Where the link of node i leads. */
  function Link(free: seq<Chunk>, i: nat): nat {
    if i < |free| then free[i].at else 0
  }

  ghost predicate Chain(w: Memory, free: seq<Chunk>) {
    && (forall i | 0 <= i < |free| :: w(free[i].at) == free[i].size)
    && (forall i | 0 <= i <= |free| :: w(Node(free, i) + MC_NEXT) == Link(free, i))
  }

  ghost predicate Headers(w: Memory, live: seq<Block>) {
    forall b | b in live :: w(b.at) == b.size && w(b.at + MC_USIZE) == b.usize
  }

  ghost predicate PoolHeader(w: Memory, size: nat, offset: nat, count: nat) {
    w(MP_SIZE) == size && w(MP_OFFSET) == offset && w(MP_FREECHUNKS) == 0 && w(COUNT) == count
  }

  /** The words of a pool of `size` bytes whose live blocks are `live`. */
  ghost predicate Holds(w: Memory, size: nat, live: seq<Block>) {
    && SIZEOF_MEM_POOL <= size
    && PoolInv(size, live)
    && PoolHeader(w, size, Offset(live), |FreeList(live)|)
    && Chain(w, FreeList(live))
    && Headers(w, live)
  }

  /** Segment `m` is such a pool. */
  ghost predicate Encodes(m: seq<Byte>, live: seq<Block>) {
    Holds(View(m), |m|, live)
  }

  // ----- what a store leaves alone -----

  /** The span meets no live block. */
  ghost predicate Clear(s: Span, live: seq<Block>) {
    forall b | b in live :: s.hi <= b.at || b.End() <= s.lo
  }

  /** Every word inside a live block is as it was. */
  ghost predicate WordsKept(w: Memory, w': Memory, live: seq<Block>) {
    forall b, a: int | b in live && b.at <= a && a + 4 <= b.End() :: w'(a) == w(a)
  }

  /** Every byte of every live block is as it was. */
  ghost predicate BlocksKept(m: seq<Byte>, m': seq<Byte>, live: seq<Block>) {
    |m'| == |m| && forall b, k | b in live && b.at <= k < b.End() && k < |m| :: m'[k] == m[k]
  }

  lemma {:induction false} WordsKeptBytesKept(m: seq<Byte>, m': seq<Byte>, live: seq<Block>)
    requires |m'| == |m| && PoolInv(|m|, live) && WordsKept(View(m), View(m'), live)
    ensures BlocksKept(m, m', live)
  {
    LiveShape(live, SIZEOF_MEM_POOL);
    forall b, k | b in live && b.at <= k < b.End() && k < |m|
      ensures m'[k] == m[k]
    {
      var a := if k + 4 <= b.End() then k else b.End() - 4;
      assert View(m)(a) == View(m')(a);
      SameWordSameBytes(m, m', a);
      assert m[a..a + 4][k - a] == m'[a..a + 4][k - a];
    }
  }

  lemma {:induction false} ClearKeepsWords(w: Memory, w': Memory, x: Span, y: Span, z: Span, live: seq<Block>)
    requires OnlyAt(w, w', x, y, z) && Clear(x, live) && Clear(y, live) && Clear(z, live)
    ensures WordsKept(w, w', live)
  {
  }

  lemma {:induction false} WordsKeptHeadersKept(w: Memory, w': Memory, live: seq<Block>, from: nat, top: nat)
    requires LiveWithin(live, from, top) && Headers(w, live) && WordsKept(w, w', live)
    ensures Headers(w', live)
  {
  }

  // ----- relinking -----

  /** Chunks i..j of the chain give way to `mid` (at most one chunk). */
  lemma {:induction false} Relink(w: Memory, w': Memory, free: seq<Chunk>, i: nat, j: nat, mid: seq<Chunk>)
    requires Chain(w, free) && i <= j <= |free| && |mid| <= 1
    requires forall t | 0 <= t < |free| && (t < i || j <= t) :: w'(free[t].at) == free[t].size
    requires forall t | 0 <= t <= |free| && (t < i || j < t) :: w'(Node(free, t) + MC_NEXT) == Link(free, t)
    requires w'(Node(free, i) + MC_NEXT) == if mid == [] then Link(free, j) else mid[0].at
    requires mid != [] ==> w'(mid[0].at) == mid[0].size && w'(mid[0].at + MC_NEXT) == Link(free, j)
    ensures Chain(w', free[..i] + mid + free[j..])
  {
    var free' := free[..i] + mid + free[j..];
    var n := |mid|;
    forall t | 0 <= t < |free'| ensures w'(free'[t].at) == free'[t].size {
      if i + n <= t { assert free'[t] == free[t - i - n + j]; }
    }
    forall t | 0 <= t <= |free'| ensures w'(Node(free', t) + MC_NEXT) == Link(free', t) {
      if t < i {
        assert Node(free', t) == Node(free, t) && Link(free', t) == Link(free, t);
      } else if t == i {
        assert Node(free', t) == Node(free, i);
      } else if t == i + n {
        assert Link(free', t) == Link(free, j);
      } else {
        assert Node(free', t) == Node(free, t - i - n + j) && Link(free', t) == Link(free, t - i - n + j);
      }
    }
  }

  /** `k` free chunks lie below `at`, the others above it. */
  ghost predicate Position(free: seq<Chunk>, at: nat, k: nat) {
    && k <= |free|
    && (forall t | 0 <= t < k :: free[t].at < at)
    && (forall t | k <= t < |free| :: at < free[t].at)
  }

  ghost predicate After(free: seq<Chunk>, c: Chunk, k: nat) {
    0 < k <= |free| && free[k - 1].End() == c.at
  }

  lemma {:induction false} AbsorbPrefix(free: seq<Chunk>, offset: nat, c: Chunk, n: nat)
    requires n <= |free| && forall t | 0 <= t < n :: free[t].at < c.at && free[t].End() != c.at
    ensures Absorb(free, offset, c) == Absorb(free[n..], offset, c).Behind(free[..n])
  {
    var f := Absorb(free[n..], offset, c).free;
    if n == 0 {
      assert free[0..] == free && free[..0] + f == f;
    } else {
      var tail := free[1..];
      AbsorbPrefix(tail, offset, c, n - 1);
      assert free == [free[0]] + tail && tail[n - 1..] == free[n..];
      AbsorbSkips(free[0], tail, offset, c);
      assert free[..n] + f == [free[0]] + (tail[..n - 1] + f);
    }
  }

  /** `Absorb` by position: only the chunk just below `c` and what follows it matter. */
  lemma {:induction false} AbsorbAfter(free: seq<Chunk>, offset: nat, c: Chunk, i: nat)
    requires Apart(free) && Position(free, c.at, i + 1) && After(free, c, i + 1)
    ensures Absorb(free, offset, c)
      == Settle(free[i + 1..], offset, Chunk(free[i].at, free[i].size + c.size)).Behind(free[..i])
  {
    forall t | 0 <= t < i ensures free[t].End() != c.at {
      assert free[t].End() < free[i].at;
    }
    AbsorbPrefix(free, offset, c, i);
    assert free[i..][0] == free[i] && free[i..][1..] == free[i + 1..];
  }

  lemma {:induction false} AbsorbApart(free: seq<Chunk>, offset: nat, c: Chunk, k: nat)
    requires Apart(free) && Position(free, c.at, k) && !After(free, c, k)
    ensures Absorb(free, offset, c) == Settle(free[k..], offset, c).Behind(free[..k])
  {
    forall t | 0 <= t < k ensures free[t].End() != c.at {
      if t < k - 1 { assert free[t].End() < free[k - 1].at; }
    }
    AbsorbPrefix(free, offset, c, k);
  }
}
