/** The shared segment radbuffers.c lays out: the pool record, then for each size class its
    blocks, each a header and the bytes it offers. Sizes of a 32-bit system. */
module BufferLayout {

  const MAX_BFR_SIZES: nat := 10
  /** sizeof (BUFFER_SHARE): three ten-entry tables of four bytes and two ints. */
  const SHARE: nat := 128
  /** sizeof (BFR_HDR), packed. */
  const HDR: nat := 8

  datatype Class = Class(size: nat, count: nat)

  // ----- the sizes -----

  /** The doubling loop for the first size. */
  function Double(t: nat, min: nat): nat
    requires 0 < t
    decreases min - t
  {
    if t < min then Double(2 * t, min) else t
  }

  predicate PowerOfTwo(n: nat)
  {
    n == 1 || (n > 1 && n % 2 == 0 && PowerOfTwo(n / 2))
  }

  lemma {:induction false} PowerDoubled(n: nat)
    requires PowerOfTwo(n)
    ensures PowerOfTwo(2 * n)
  {
    assert 2 * n / 2 == n;
  }

  lemma {:induction false} DoublesApart(p: nat, q: nat)
    requires PowerOfTwo(p) && PowerOfTwo(q) && p < q
    ensures 2 * p <= q
  {
    if p > 1 { DoublesApart(p / 2, q / 2); }
  }

  lemma {:induction false} DoubleIsLeast(t: nat, min: nat, p: nat)
    requires PowerOfTwo(t) && PowerOfTwo(p) && t <= p && min <= p
    ensures PowerOfTwo(Double(t, min)) && t <= Double(t, min) <= p && min <= Double(t, min)
    decreases min - t
  {
    if t < min {
      PowerDoubled(t);
      DoublesApart(t, p);
      DoubleIsLeast(2 * t, min, p);
    }
  }

  lemma {:induction false} SomePower(n: nat) returns (p: nat)
    ensures PowerOfTwo(p) && n <= p
  {
    if n <= 1 {
      p := 1;
    } else {
      p := SomePower(n - 1);
      PowerDoubled(p);
      p := 2 * p;
    }
  }

  /** The first size is the least power of two that is at least 16 and at least `min`. */
  lemma {:induction false} FirstSizeIsLeast(min: nat)
    ensures var s := Double(16, min);
      PowerOfTwo(s) && 16 <= s && min <= s && forall p: nat | PowerOfTwo(p) && 16 <= p && min <= p :: s <= p
  {
    assert PowerOfTwo(2) && PowerOfTwo(4) && PowerOfTwo(8) && PowerOfTwo(16);
    var q := SomePower(min + 16);
    DoubleIsLeast(16, min, q);
    forall p: nat | PowerOfTwo(p) && 16 <= p && min <= p ensures Double(16, min) <= p {
      DoubleIsLeast(16, min, p);
    }
  }

  /** The classes from number i on, `size` being the next size. */
  function Classes(i: nat, size: nat, max: int, counts: seq<int>): (cs: seq<Class>)
    requires i <= MAX_BFR_SIZES == |counts|
    ensures i + |cs| <= MAX_BFR_SIZES
    decreases MAX_BFR_SIZES - i
  {
    if i == MAX_BFR_SIZES || counts[i] <= 0 then []
    else [Class(size, counts[i])] + (if size >= max then [] else Classes(i + 1, 2 * size, max, counts))
  }

  /** Sizes double from class to class, and all but the last are below `max`. */
  ghost predicate Doubling(cs: seq<Class>, max: int) {
    forall k | 0 <= k < |cs| - 1 :: cs[k].size < max && cs[k + 1].size == 2 * cs[k].size
  }

  lemma {:induction false} ClassesDouble(i: nat, size: nat, max: int, counts: seq<int>)
    requires i <= MAX_BFR_SIZES == |counts|
    ensures var cs := Classes(i, size, max, counts);
      Doubling(cs, max) && (cs != [] ==> cs[0].size == size)
    decreases MAX_BFR_SIZES - i
  {
    if i < MAX_BFR_SIZES && counts[i] > 0 && size < max {
      hide Doubling;
      ClassesDouble(i + 1, 2 * size, max, counts);
      DoublingCons(Class(size, counts[i]), Classes(i + 1, 2 * size, max, counts), max);
    }
  }

  /** The classes stop behind the first size that reaches `max`, before a count that is not
      positive, or with the tenth. */
  ghost predicate StopsAt(cs: seq<Class>, i: nat, max: int, counts: seq<int>)
    requires i + |cs| <= MAX_BFR_SIZES == |counts|
  {
    i + |cs| < MAX_BFR_SIZES ==> counts[i + |cs|] <= 0 || (cs != [] && cs[|cs| - 1].size >= max)
  }

  /** The counts are the caller's. */
  ghost predicate Counted(cs: seq<Class>, i: nat, counts: seq<int>)
    requires i + |cs| <= MAX_BFR_SIZES == |counts|
  {
    forall k | i <= k < i + |cs| :: counts[k] > 0 && cs[k - i].count == counts[k]
  }

  lemma {:induction false} ClassesStop(i: nat, size: nat, max: int, counts: seq<int>)
    requires i <= MAX_BFR_SIZES == |counts|
    ensures StopsAt(Classes(i, size, max, counts), i, max, counts)
    ensures Counted(Classes(i, size, max, counts), i, counts)
    decreases MAX_BFR_SIZES - i
  {
    if i < MAX_BFR_SIZES && counts[i] > 0 && size < max {
      var rest := Classes(i + 1, 2 * size, max, counts);
      ClassesStop(i + 1, 2 * size, max, counts);
      hide Classes, Counted, StopsAt;
      StopsLater(Class(size, counts[i]), rest, i, max, counts);
    }
  }

  lemma {:induction false} StopsLater(c: Class, cs: seq<Class>, i: nat, max: int, counts: seq<int>)
    requires i + 1 + |cs| <= MAX_BFR_SIZES == |counts| && c.count == counts[i] > 0 && c.size < max
    requires StopsAt(cs, i + 1, max, counts) && Counted(cs, i + 1, counts)
    ensures StopsAt([c] + cs, i, max, counts) && Counted([c] + cs, i, counts)
  {
    var s := [c] + cs;
    forall k | i <= k < i + |s| ensures counts[k] > 0 && s[k - i].count == counts[k] {
      if i < k { assert s[k - i] == cs[k - i - 1]; }
    }
  }

  lemma {:induction false} DoublingCons(c: Class, cs: seq<Class>, max: int)
    requires Doubling(cs, max) && c.size < max && (cs != [] ==> cs[0].size == 2 * c.size)
    ensures Doubling([c] + cs, max)
  {
    var s := [c] + cs;
    forall k | 0 <= k < |s| - 1 ensures s[k].size < max && s[k + 1].size == 2 * s[k].size {
      if 0 < k { assert s[k] == cs[k - 1] && s[k + 1] == cs[k]; }
    }
  }

  // ----- the blocks -----

  /** n blocks from offset `base`, `step` apart. */
  function Row(base: nat, step: nat, n: nat): (r: seq<nat>)
    ensures |r| == n
    decreases n
  {
    if n == 0 then [] else [base] + Row(base + step, step, n - 1)
  }

  /** The bytes a class takes. */
  function Width(c: Class): nat {
    (HDR + c.size) * c.count
  }

  /** What radBuffersInit adds up, from offset `base`. */
  function End(base: nat, cs: seq<Class>): nat
    decreases |cs|
  {
    if cs == [] then base else End(base + Width(cs[0]), cs[1..])
  }

  /** The blocks of each class. */
  function Rows(base: nat, cs: seq<Class>): (rows: seq<seq<nat>>)
    ensures |rows| == |cs| && forall i | 0 <= i < |cs| :: |rows[i]| == cs[i].count
    decreases |cs|
  {
    if cs == [] then [] else [Row(base, HDR + cs[0].size, cs[0].count)] + Rows(base + Width(cs[0]), cs[1..])
  }

  lemma {:induction false} RowAt(base: nat, step: nat, n: nat, j: nat)
    requires j < n
    ensures Row(base, step, n)[j] == base + j * step && base + j * step + step <= base + n * step
    decreases n
  {
    if 0 < j {
      RowAt(base + step, step, n - 1, j - 1);
      assert (j - 1) * step + step == j * step && (n - 1) * step + step == n * step;
    } else {
      assert n * step == step + (n - 1) * step && 0 <= (n - 1) * step;
    }
  }

  lemma {:induction false} RowFrom(base: nat, step: nat, n: nat, j: nat)
    requires j < n
    ensures base <= Row(base, step, n)[j]
    decreases n
  {
    if 0 < j { RowFrom(base + step, step, n - 1, j - 1); }
  }

  lemma {:induction false} RowApart(base: nat, step: nat, n: nat, j: nat, k: nat)
    requires j < k < n
    ensures Row(base, step, n)[j] + step <= Row(base, step, n)[k]
    decreases n
  {
    if j == 0 {
      RowFrom(base + step, step, n - 1, k - 1);
    } else {
      RowApart(base + step, step, n - 1, j - 1, k - 1);
    }
  }

  lemma {:induction false} RowCovers(base: nat, step: nat, n: nat, x: nat) returns (j: nat)
    requires base <= x < base + n * step
    ensures j < n && Row(base, step, n)[j] <= x < Row(base, step, n)[j] + step
    decreases n
  {
    assert n != 0;
    if x < base + step {
      j := 0;
    } else {
      assert n * step == step + (n - 1) * step;
      j := RowCovers(base + step, step, n - 1, x);
      j := j + 1;
    }
  }

  lemma {:induction false} EndGrows(base: nat, cs: seq<Class>)
    ensures base <= End(base, cs)
    decreases |cs|
  {
    if cs != [] { EndGrows(base + Width(cs[0]), cs[1..]); }
  }

  lemma {:induction false} FirstRow(base: nat, c: Class, j: nat)
    requires j < c.count
    ensures base <= Row(base, HDR + c.size, c.count)[j]
    ensures Row(base, HDR + c.size, c.count)[j] + HDR + c.size <= base + Width(c)
  {
    RowAt(base, HDR + c.size, c.count, j);
    assert 0 <= j * (HDR + c.size);
  }

  /** Every block, header and payload, lies in the segment. */
  lemma {:induction false} BlockInSegment(base: nat, cs: seq<Class>, i: nat, j: nat)
    requires i < |cs| && j < cs[i].count
    ensures base <= Rows(base, cs)[i][j] && Rows(base, cs)[i][j] + HDR + cs[i].size <= End(base, cs)
    decreases |cs|
  {
    hide Width, Row;
    var next := base + Width(cs[0]);
    if i == 0 {
      FirstRow(base, cs[0], j);
      EndGrows(next, cs[1..]);
    } else {
      BlockInSegment(next, cs[1..], i - 1, j);
    }
  }

  /** Blocks in the order of the classes, and within a class by number, follow one another. */
  lemma {:induction false} BlocksApart(base: nat, cs: seq<Class>, i: nat, j: nat, i': nat, j': nat)
    requires i < |cs| && j < cs[i].count && i' < |cs| && j' < cs[i'].count
    requires i < i' || (i == i' && j < j')
    ensures Rows(base, cs)[i][j] + HDR + cs[i].size <= Rows(base, cs)[i'][j']
    decreases |cs|
  {
    hide Width, Row;
    var next := base + Width(cs[0]);
    if 0 < i {
      BlocksApart(next, cs[1..], i - 1, j, i' - 1, j');
    } else if i' == 0 {
      RowApart(base, HDR + cs[0].size, cs[0].count, j, j');
    } else {
      FirstRow(base, cs[0], j);
      BlockInSegment(next, cs[1..], i' - 1, j');
    }
  }

  /** Every byte behind the pool record belongs to a block. */
  lemma {:induction false} BlocksCover(base: nat, cs: seq<Class>, x: nat) returns (i: nat, j: nat)
    requires base <= x < End(base, cs)
    ensures i < |cs| && j < cs[i].count && Rows(base, cs)[i][j] <= x < Rows(base, cs)[i][j] + HDR + cs[i].size
    decreases |cs|
  {
    var next := base + Width(cs[0]);
    if x < next {
      i := 0;
      j := RowCovers(base, HDR + cs[0].size, cs[0].count, x);
    } else {
      i, j := BlocksCover(next, cs[1..], x);
      i := i + 1;
    }
  }

  /** The byte x belongs to block j of class i. */
  ghost predicate InBlock(base: nat, cs: seq<Class>, i: nat, j: nat, x: nat) {
    i < |cs| && j < cs[i].count && Rows(base, cs)[i][j] <= x < Rows(base, cs)[i][j] + HDR + cs[i].size
  }

  /** The blocks tile the segment behind the pool record: each byte is in exactly one, and no
      block has any other byte. */
  lemma {:induction false} BlocksTile(cs: seq<Class>, x: nat)
    ensures SHARE <= x < End(SHARE, cs) <==> exists i: nat, j: nat :: InBlock(SHARE, cs, i, j, x)
    ensures forall i: nat, j: nat, i': nat, j': nat :: InBlock(SHARE, cs, i, j, x) && InBlock(SHARE, cs, i', j', x) ==>
      i == i' && j == j'
  {
    if SHARE <= x < End(SHARE, cs) {
      var i, j := BlocksCover(SHARE, cs, x);
      assert InBlock(SHARE, cs, i, j, x);
    }
    forall i: nat, j: nat | InBlock(SHARE, cs, i, j, x) ensures SHARE <= x < End(SHARE, cs) {
      BlockInSegment(SHARE, cs, i, j);
    }
    forall i: nat, j: nat, i': nat, j': nat | InBlock(SHARE, cs, i, j, x) && InBlock(SHARE, cs, i', j', x)
      ensures i == i' && j == j'
    {
      if i < i' || (i == i' && j < j') {
        BlocksApart(SHARE, cs, i, j, i', j');
      } else if i' < i || j' < j {
        BlocksApart(SHARE, cs, i', j', i, j);
      }
    }
  }
}
