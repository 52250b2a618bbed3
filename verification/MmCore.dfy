/** The size arithmetic of mm_core.c. */
module MmCore {
  import opened MmFreeList
  import opened Wrappers

  const MM_SHM_MAXSEGSIZE: nat := 33554432
  const MM_ALLOC_MINSIZE: nat := 8192
  /** sizeof(mem_core) - sizeof(mem_word) in the two-semaphore build on i686. */
  const SIZEOF_MEM_CORE: nat := 32

  function Align2Page(n: nat, page: nat): nat
    requires 0 < page
  {
    if n % page > 0 then (n / page + 1) * page else n
  }

  function Align2Word(n: nat): nat
    requires 0 < n
  {
    (1 + (n - 1) / SIZEOF_MEM_WORD) * SIZEOF_MEM_WORD
  }

  /** Page sizes for which mm_core_maxsegsize does not wrap around. */
  predicate PageSize(page: nat) {
    0 < page && SIZEOF_MEM_CORE + page < MM_SHM_MAXSEGSIZE
  }

  function MaxSegSize(page: nat): nat
    requires PageSize(page)
  {
    Align2Page(MM_SHM_MAXSEGSIZE - SIZEOF_MEM_CORE - page, page)
  }

  /** The segment mm_core_create asks the system for; None is its EINVAL. */
  function CoreCreate(usersize: nat, page: nat): Option<nat>
    requires PageSize(page)
  {
    if usersize <= 0 || usersize > MaxSegSize(page) then None
    else Some(Align2Page(usersize + SIZEOF_MEM_CORE, page))
  }

  /** The pool size mm_create settles on. */
  function PoolSize(usize: nat, page: nat): nat
    requires PageSize(page)
  {
    SmallestPoolFits(page);
    var maxsize := MaxSegSize(page) - SIZEOF_MEM_POOL;
    var u := if usize == 0 then maxsize else usize;
    var u := if u > maxsize then maxsize else u;
    var u := if u < MM_ALLOC_MINSIZE then MM_ALLOC_MINSIZE else u;
    u + SIZEOF_MEM_POOL
  }

  lemma {:induction false} DivMul(n: nat, d: nat)
    requires 0 < d
    ensures n == n / d * d + n % d
  {
  }

  lemma {:induction false} MultiplesStep(a: nat, b: nat, d: nat)
    requires a * d < b * d
    ensures (a + 1) * d <= b * d
  {
    assert b <= a ==> b * d <= a * d;
    assert a + 1 <= b ==> (a + 1) * d <= b * d;
  }

  /** The least multiple of `d` at or above `n`. */
  ghost predicate LeastMultiple(r: nat, n: nat, d: nat)
    requires 0 < d
  {
    r % d == 0 && n <= r && forall m: nat | n <= m * d :: r <= m * d
  }

  lemma {:induction false} Align2PageIsLeast(n: nat, page: nat)
    requires 0 < page
    ensures LeastMultiple(Align2Page(n, page), n, page)
  {
    DivMul(n, page);
    var q := n / page;
    if n % page > 0 {
      assert ((q + 1) * page) % page == 0 by { MulMod(q + 1, page); }
      forall m: nat | n <= m * page ensures (q + 1) * page <= m * page {
        MultiplesStep(q, m, page);
      }
    }
  }

  lemma {:induction false} MulMod(q: nat, d: nat)
    requires 0 < d
    ensures (q * d) % d == 0
  {
    DivMul(q * d, d);
    var e := q - (q * d) / d;
    assert e * d == (q * d) % d;
    assert e >= 1 ==> e * d >= d;
    assert e <= -1 ==> e * d + d <= 0;
  }

  lemma {:induction false} Align2WordIsLeast(n: nat)
    requires 0 < n
    ensures LeastMultiple(Align2Word(n), n, SIZEOF_MEM_WORD)
  {
  }

  /** A size below one page takes a page. */
  lemma {:induction false} BelowOnePage(n: nat, page: nat)
    requires 0 < n < page
    ensures Align2Page(n, page) == page
  {
    assert n / page == 0;
    assert n % page == n;
  }

  lemma {:induction false} AlignCovers(n: nat, page: nat)
    requires 0 < page
    ensures n <= Align2Page(n, page)
  {
    hide LeastMultiple;
    Align2PageIsLeast(n, page);
    LeastCovers(Align2Page(n, page), n, page);
  }

  lemma {:induction false} LeastCovers(r: nat, n: nat, d: nat)
    requires 0 < d && LeastMultiple(r, n, d)
    ensures n <= r
  {
  }

  /** Even the largest pages leave room for the smallest pool. */
  lemma {:induction false} SmallestPoolFits(page: nat)
    requires PageSize(page)
    ensures MM_ALLOC_MINSIZE + SIZEOF_MEM_POOL <= MaxSegSize(page)
  {
    hide Align2Page;
    var room := MM_SHM_MAXSEGSIZE - SIZEOF_MEM_CORE - page;
    if room < page {
      BelowOnePage(room, page);
    } else {
      AlignCovers(room, page);
    }
  }

  /** The largest segment a user can ask for: the least multiple of the page size that leaves
      the core and one page below the limit; a page less than the limit when pages divide it. */
  lemma {:induction false} MaxSegSizeIs(page: nat)
    requires PageSize(page)
    ensures MaxSegSize(page) % page == 0 && 33554432 - 32 - page <= MaxSegSize(page) < 33554432 - 32
    ensures 33554432 % page == 0 && 32 < page ==> MaxSegSize(page) == 33554432 - page
  {
    var room := MM_SHM_MAXSEGSIZE - SIZEOF_MEM_CORE - page;
    Align2PageIsLeast(room, page);
    Align2PageAddsLess(room, page);
    if MM_SHM_MAXSEGSIZE % page == 0 && 32 < page {
      var q := MM_SHM_MAXSEGSIZE / page;
      DivMul(MM_SHM_MAXSEGSIZE, page);
      DivMul(MaxSegSize(page), page);
      OneMultiple(MaxSegSize(page) / page, q, page);
    }
  }

  /** Between (q - 2) * d and q * d there is one multiple of d. */
  lemma {:induction false} OneMultiple(m: nat, q: nat, d: nat)
    requires q * d - 2 * d < m * d < q * d
    ensures m * d == q * d - d
  {
    MultiplesStep(m, q, d);
    if m * d < q * d - d {
      assert (m + 1) * d < q * d;
      MultiplesStep(m + 1, q, d);
    }
  }

  /** Whatever the request, the clamp of mm_create passes the size check of mm_core_create, and
      the rounded segment, header included, stays within MM_SHM_MAXSEGSIZE when pages divide it. */
  lemma {:induction false} ClampIsAccepted(usize: nat, page: nat)
    requires PageSize(page)
    ensures CoreCreate(PoolSize(usize, page), page).Some?
    ensures var segment := CoreCreate(PoolSize(usize, page), page).value;
      && PoolSize(usize, page) + SIZEOF_MEM_CORE <= segment
      && (MM_SHM_MAXSEGSIZE % page == 0 ==> segment <= MM_SHM_MAXSEGSIZE)
  {
    var size, room := PoolSize(usize, page), MM_SHM_MAXSEGSIZE - SIZEOF_MEM_CORE - page;
    SmallestPoolFits(page);
    Align2PageIsLeast(room, page);
    Align2PageAddsLess(room, page);
    Align2PageIsLeast(size + SIZEOF_MEM_CORE, page);
    if MM_SHM_MAXSEGSIZE % page == 0 {
      DivMul(MM_SHM_MAXSEGSIZE, page);
      assert size + SIZEOF_MEM_CORE <= MM_SHM_MAXSEGSIZE / page * page;
    }
  }

  lemma {:induction false} Align2PageAddsLess(n: nat, page: nat)
    requires 0 < page
    ensures Align2Page(n, page) < n + page
  {
    DivMul(n, page);
  }
}
