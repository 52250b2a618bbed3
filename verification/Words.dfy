/** A shared segment seen as bytes, and the 4-byte little-endian words that the
    allocator keeps inside it (the recorded build host is i686, so size_t and pointers
    are four bytes wide). */
module Words {

  type Byte = x: int | 0 <= x < 256

  const WORD_LIMIT: nat := 0x1_0000_0000

  /** The word at byte offset `a`; 0 outside the segment. */
  function Load(m: seq<Byte>, a: nat): (v: nat)
    ensures v < WORD_LIMIT
  {
    if a + 4 <= |m| then
      m[a] as int + 0x100 * m[a + 1] as int + 0x1_0000 * m[a + 2] as int + 0x100_0000 * m[a + 3] as int
    else 0
  }

  /** The segment with `v` written at `a`; unchanged where that does not fit. */
  function Store(m: seq<Byte>, a: nat, v: nat): (m': seq<Byte>)
    ensures |m'| == |m|
    ensures a + 4 <= |m| && v < WORD_LIMIT ==> Load(m', a) == v
    ensures forall k | 0 <= k < |m| && !(a <= k < a + 4) :: m'[k] == m[k]
  {
    if a + 4 > |m| || v >= WORD_LIMIT then m else
    m[a := v % 0x100]
     [a + 1 := v / 0x100 % 0x100]
     [a + 2 := v / 0x1_0000 % 0x100]
     [a + 3 := v / 0x100_0000]
  }

  /** A segment as its words, by byte offset. */
  type Memory = int -> int

  function View(m: seq<Byte>): Memory { (a: int) => if a < 0 then 0 else Load(m, a) }

  /** The bytes lo..hi. */
  datatype Span = Span(lo: int, hi: int)

  function Word(a: int): Span { Span(a, a + 4) }

  /** The word at `a` lies clear of `s`. */
  ghost predicate Off(a: int, s: Span) {
    a + 4 <= s.lo || s.hi <= a
  }

  /** `w'` is `w` with `v` stored at `a`. */
  ghost predicate Stored(w: Memory, w': Memory, a: int, v: int) {
    w'(a) == v && forall x: int | Off(x, Word(a)) :: w'(x) == w(x)
  }

  /** No word clear of the three spans differs. */
  ghost predicate OnlyAt(w: Memory, w': Memory, a: Span, b: Span, c: Span) {
    forall x: int | Off(x, a) && Off(x, b) && Off(x, c) :: w'(x) == w(x)
  }

  lemma {:induction false} StoreStores(m: seq<Byte>, a: nat, v: nat)
    requires a + 4 <= |m| && v < WORD_LIMIT
    ensures Stored(View(m), View(Store(m, a, v)), a, v)
  {
    var m' := Store(m, a, v);
    forall x: int | Off(x, Word(a)) ensures View(m')(x) == View(m)(x) {
      if 0 <= x {
        assert x + 4 <= |m| ==>
          && m'[x] == m[x] && m'[x + 1] == m[x + 1] && m'[x + 2] == m[x + 2]
          && m'[x + 3] == m[x + 3];
      }
    }
  }

  lemma {:induction false} SameWordSameBytes(m: seq<Byte>, m': seq<Byte>, a: nat)
    requires a + 4 <= |m| && a + 4 <= |m'| && Load(m, a) == Load(m', a)
    ensures m[a..a + 4] == m'[a..a + 4]
  {
    var x, y := m[a..a + 4], m'[a..a + 4];
    SameByte(x[0], x[1] as int + 0x100 * x[2] as int + 0x1_0000 * x[3] as int, y[0],
      y[1] as int + 0x100 * y[2] as int + 0x1_0000 * y[3] as int);
    SameByte(x[1], x[2] as int + 0x100 * x[3] as int, y[1], y[2] as int + 0x100 * y[3] as int);
    SameByte(x[2], x[3], y[2], y[3]);
  }

  lemma {:induction false} SameByte(a: Byte, x: int, b: Byte, y: int)
    requires a as int + 0x100 * x == b as int + 0x100 * y
    ensures a == b && x == y
  {
    var d := x - y;
    assert 0x100 * d == b as int - a as int;
  }
}
