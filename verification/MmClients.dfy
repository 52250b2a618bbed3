/** What clients of a pool may do to its bytes, and what resizing in place changes. */
module MmClients {
  import opened Words
  import opened MmFreeList
  import opened MmSpec
  import opened MmLayout
  import opened MmSurgery
  import opened MmCases

  /** Byte `k` belongs to the user of some live block. */
  ghost predicate InUser(live: seq<Block>, k: int) {
    exists b | b in live :: b.at + SIZEOF_MEM_CHUNK <= k < b.at + SIZEOF_MEM_CHUNK + b.usize
  }

  /** No byte of the word at `a` belongs to a user. */
  ghost predicate Private(live: seq<Block>, a: int) {
    forall b | b in live :: a + 4 <= b.at + SIZEOF_MEM_CHUNK || b.at + SIZEOF_MEM_CHUNK + b.usize <= a
  }

  lemma {:induction false} PrivateWordKept(m: seq<Byte>, m': seq<Byte>, live: seq<Block>, a: nat)
    requires |m'| == |m| && (forall k | 0 <= k < |m| && !InUser(live, k) :: m'[k] == m[k]) && Private(live, a)
    ensures View(m')(a) == View(m)(a)
  {
    if a + 4 <= |m| {
      assert forall k | a <= k < a + 4 :: !InUser(live, k);
      assert m'[a] == m[a] && m'[a + 1] == m[a + 1] && m'[a + 2] == m[a + 2] && m'[a + 3] == m[a + 3];
    }
  }

  lemma {:induction false} LayoutIsPrivate(size: nat, live: seq<Block>)
    requires SIZEOF_MEM_POOL <= size && PoolInv(size, live)
    ensures forall a: nat | a + 4 <= SIZEOF_MEM_POOL :: Private(live, a)
    ensures forall b | b in live :: Private(live, b.at) && Private(live, b.at + MC_USIZE)
    ensures forall g | g in FreeList(live) :: Private(live, g.at) && Private(live, g.at + MC_NEXT)
  {
    LiveShape(live, SIZEOF_MEM_POOL);
    GapShape(live, SIZEOF_MEM_POOL);
    forall b | b in live ensures Private(live, b.at) && Private(live, b.at + MC_USIZE) {
      forall c | c in live ensures b.at + SIZEOF_MEM_CHUNK <= c.at + SIZEOF_MEM_CHUNK || c.End() <= b.at {
        var i :| 0 <= i < |live| && live[i] == b;
        var j :| 0 <= j < |live| && live[j] == c;
      }
    }
  }

  /** Whatever its clients write into the user areas of their blocks, the pool stays a pool
      with the same live blocks. */
  lemma {:induction false} ClientsKeepThePool(m: seq<Byte>, m': seq<Byte>, live: seq<Block>)
    requires Encodes(m, live) && |m'| == |m|
    requires forall k | 0 <= k < |m| && !InUser(live, k) :: m'[k] == m[k]
    ensures Encodes(m', live)
  {
    var free := FreeList(live);
    LayoutIsPrivate(|m|, live);
    forall a: nat | Private(live, a) ensures View(m')(a) == View(m)(a) {
      PrivateWordKept(m, m', live, a);
    }
    KeptChain(View(m), View(m'), live, free);
  }

  lemma {:induction false} KeptChain(w: Memory, w': Memory, live: seq<Block>, free: seq<Chunk>)
    requires Chain(w, free) && forall a: nat | Private(live, a) :: w'(a) == w(a)
    requires forall a: nat | a + 4 <= SIZEOF_MEM_POOL :: Private(live, a)
    requires forall g | g in free :: Private(live, g.at) && Private(live, g.at + MC_NEXT)
    ensures Chain(w', free)
  {
    forall i | 0 <= i < |free| ensures Private(live, free[i].at) && Private(live, free[i].at + MC_NEXT) {
      assert free[i] in free;
    }
    forall i | 0 <= i <= |free| ensures w'(Node(free, i) + MC_NEXT) == Link(free, i) {
      assert Private(live, Node(free, i) + MC_NEXT);
    }
  }

  // ----- resizing in place -----

  lemma {:induction false} SetUsizeMembers(live: seq<Block>, from: nat, at: nat, usize: nat)
    requires Placed(live, from) && HasBlock(live, at)
    ensures forall c | c in SetUsize(live, at, usize) ::
      c == BlockAt(live, at).(usize := usize) || (c in live && c in Remove(live, at))
  {
    if live[0].at != at {
      SetUsizeMembers(live[1..], live[0].End(), at, usize);
    }
  }

  /** Only mc_usize of the block changes, and the pool then holds the resized block. */
  lemma {:induction false} ResizeInPlace(w: Memory, w': Memory, size: nat, live: seq<Block>, at: nat, usize: nat)
    requires Holds(w, size, live) && HasBlock(live, at)
    requires 0 < usize && SIZEOF_MEM_CHUNK + usize <= BlockAt(live, at).size
    requires Stored(w, w', at + MC_USIZE, usize)
    ensures Holds(w', size, SetUsize(live, at, usize)) && WordsKept(w, w', Remove(live, at))
  {
    var live', b, s := SetUsize(live, at, usize), BlockAt(live, at), Word(at + MC_USIZE);
    SetUsizeIsCanonical(live, SIZEOF_MEM_POOL, at, usize);
    FreeFacts(size, live);
    OwnWordKeepsChain(w, w', FreeList(live), at + MC_USIZE, live, b);
    SiteIsClear(live, Chunk(at, b.size), s);
    ClearKeepsWords(w, w', s, s, s, Remove(live, at));
    SetUsizeMembers(live, SIZEOF_MEM_POOL, at, usize);
    ResizedHeaders(w, w', live, at, usize);
  }

  lemma {:induction false} ResizedHeaders(w: Memory, w': Memory, live: seq<Block>, at: nat, usize: nat)
    requires Headers(w, live) && HasBlock(live, at) && LiveWithin(live, SIZEOF_MEM_POOL, Offset(live))
    requires Stored(w, w', at + MC_USIZE, usize) && WordsKept(w, w', Remove(live, at))
    requires forall c | c in SetUsize(live, at, usize) ::
      c == BlockAt(live, at).(usize := usize) || (c in live && c in Remove(live, at))
    ensures Headers(w', SetUsize(live, at, usize))
  {
    forall c | c in SetUsize(live, at, usize)
      ensures w'(c.at) == c.size && w'(c.at + MC_USIZE) == c.usize
    {
      if c != BlockAt(live, at).(usize := usize) {
        assert w'(c.at) == w(c.at) && w'(c.at + MC_USIZE) == w(c.at + MC_USIZE);
      } else {
        assert w'(at) == w(at);
      }
    }
  }

  /** Bytes follow words: a stretch of at least a word whose words are kept is kept. */
  lemma {:induction false} StretchKept(m: seq<Byte>, m': seq<Byte>, lo: nat, hi: nat)
    requires |m'| == |m| && lo + 4 <= hi <= |m|
    requires forall a: int | lo <= a && a + 4 <= hi :: View(m')(a) == View(m)(a)
    ensures forall k | lo <= k < hi :: m'[k] == m[k]
  {
    forall k | lo <= k < hi ensures m'[k] == m[k] {
      var a := if k + 4 <= hi then k else hi - 4;
      assert View(m')(a) == View(m)(a);
      SameWordSameBytes(m, m', a);
      assert m[a..a + 4][k - a] == m'[a..a + 4][k - a];
    }
  }

  // ----- moving a block -----

  /** After the copy of mm_realloc every block but the new one is as it was, and the pool is
      still a pool. */
  lemma {:induction false} CopiedIn(m: seq<Byte>, m': seq<Byte>, live: seq<Block>, b: Block, n: nat)
    requires Encodes(m, Insert(live, b)) && |m| == |m'|
    requires n <= b.usize && SIZEOF_MEM_CHUNK + b.usize <= b.size && b.at + SIZEOF_MEM_CHUNK + n <= |m|
    requires forall k | 0 <= k < |m| && !(b.at + SIZEOF_MEM_CHUNK <= k < b.at + SIZEOF_MEM_CHUNK + n) :: m'[k] == m[k]
    requires forall c | c in live :: b.End() <= c.at || c.End() <= b.at
    ensures Encodes(m', Insert(live, b)) && BlocksKept(m, m', live)
  {
    InsertMembers(live, b);
    assert forall k | b.at + SIZEOF_MEM_CHUNK <= k < b.at + SIZEOF_MEM_CHUNK + n :: InUser(Insert(live, b), k);
    ClientsKeepThePool(m, m', Insert(live, b));
  }
}
