/** The free list of an mm pool as a value.

    A pool is determined by its live blocks alone: `Gaps` are the maximal unallocated
    stretches below the last live block and `Top` is that block's end. The functions
    `Absorb`, `BestFit` and `Take` follow the list surgery of mm_insert_chunk and
    mm_retrieve_chunk, and the lemmas tie them to the canonical form. */
module MmFreeList {
  import opened Wrappers

  const SIZEOF_MEM_WORD: nat := 8
  const SIZEOF_MEM_CHUNK: nat := 8
  const SIZEOF_MEM_POOL: nat := 24
  /** sizeof(mem_chunk): what a chunk needs to hold its header and free-list link. */
  const MIN_CHUNK: nat := 16

  /** A free chunk. */
  datatype Chunk = Chunk(at: nat, size: nat) {
    function End(): nat { at + size }
  }

  /** A live chunk: physical size and the size its user asked for. */
  datatype Block = Block(at: nat, size: nat, usize: nat) {
    function End(): nat { at + size }
  }

  // ----- the canonical form -----

  /** Live blocks in address order from `from` on; what lies between two of them is
      either nothing or room for a chunk. */
  ghost predicate Placed(live: seq<Block>, from: nat) {
    live == [] ||
    var b := live[0];
    && from % 8 == 0 && b.at % 8 == 0 && b.size % 8 == 0
    && MIN_CHUNK <= b.size && 0 < b.usize && SIZEOF_MEM_CHUNK + b.usize <= b.size
    && (b.at == from || from + MIN_CHUNK <= b.at)
    && Placed(live[1..], b.End())
  }

  /** The maximal unallocated stretches below the last live block. */
  function Gaps(live: seq<Block>, from: nat): (free: seq<Chunk>) {
    if live == [] then []
    else (if from < live[0].at then [Chunk(from, live[0].at - from)] else []) + Gaps(live[1..], live[0].End())
  }

  /** The end of the last live block. */
  function Top(live: seq<Block>, from: nat): nat {
    if live == [] then from else Top(live[1..], live[0].End())
  }

  function Insert(live: seq<Block>, b: Block): seq<Block> {
    if live == [] || b.at < live[0].at then [b] + live else [live[0]] + Insert(live[1..], b)
  }

  function Remove(live: seq<Block>, at: nat): seq<Block> {
    if live == [] then []
    else if live[0].at == at then live[1..]
    else [live[0]] + Remove(live[1..], at)
  }

  // ----- what the canonical form looks like -----

  /** Strictly ascending, no two chunks adjacent. */
  ghost predicate Apart(free: seq<Chunk>) {
    forall i, j | 0 <= i < j < |free| :: free[i].End() < free[j].at
  }

  ghost predicate Within(free: seq<Chunk>, from: nat, top: nat) {
    forall g | g in free ::
      from <= g.at && MIN_CHUNK <= g.size && g.at % 8 == 0 && g.size % 8 == 0 && g.End() < top
  }

  ghost predicate Disjoint(free: seq<Chunk>, live: seq<Block>) {
    forall g, b | g in free && b in live :: g.End() <= b.at || b.End() <= g.at
  }

  ghost predicate LiveWithin(live: seq<Block>, from: nat, top: nat) {
    forall b | b in live ::
      from <= b.at && b.End() <= top && b.at % 8 == 0 && MIN_CHUNK <= b.size
      && 0 < b.usize && SIZEOF_MEM_CHUNK + b.usize <= b.size
  }

  ghost predicate LiveApart(live: seq<Block>) {
    forall i, j | 0 <= i < j < |live| :: live[i].End() <= live[j].at
  }

  lemma {:induction false} LiveShape(live: seq<Block>, from: nat)
    requires Placed(live, from)
    ensures from <= Top(live, from)
    ensures LiveWithin(live, from, Top(live, from)) && LiveApart(live)
  {
    if live != [] {
      LiveShape(live[1..], live[0].End());
      assert forall j | 0 < j < |live| :: live[j] == live[1..][j - 1];
    }
  }

  lemma {:induction false} GapsCons(live: seq<Block>, from: nat)
    requires live != []
    ensures from < live[0].at ==> Gaps(live, from) == [Chunk(from, live[0].at - from)] + Gaps(live[1..], live[0].End())
    ensures from < live[0].at ==> Gaps(live, from)[1..] == Gaps(live[1..], live[0].End())
    ensures live[0].at <= from ==> Gaps(live, from) == Gaps(live[1..], live[0].End())
  {
  }

  lemma {:induction false} GapsWithin(live: seq<Block>, from: nat)
    requires Placed(live, from)
    ensures Within(Gaps(live, from), from, Top(live, from))
  {
    if live != [] {
      var tail := Gaps(live[1..], live[0].End());
      GapsWithin(live[1..], live[0].End());
      assert live[0].End() <= Top(live[1..], live[0].End()) by { LiveShape(live[1..], live[0].End()); }
      GapsCons(live, from);
      forall g | g in Gaps(live, from)
        ensures from <= g.at && MIN_CHUNK <= g.size && g.at % 8 == 0 && g.size % 8 == 0 && g.End() < Top(live, from)
      {
        assert g in tail || g == Chunk(from, live[0].at - from);
      }
    }
  }

  lemma {:induction false} GapsApart(live: seq<Block>, from: nat)
    requires Placed(live, from)
    ensures Apart(Gaps(live, from))
  {
    if live != [] {
      var tail := Gaps(live[1..], live[0].End());
      GapsApart(live[1..], live[0].End());
      GapsWithin(live[1..], live[0].End());
      GapsCons(live, from);
      if from < live[0].at {
        var free := Gaps(live, from);
        assert forall i | 0 < i < |free| :: free[i] == tail[i - 1];
      }
    }
  }

  lemma {:induction false} GapsDisjoint(live: seq<Block>, from: nat)
    requires Placed(live, from)
    ensures Disjoint(Gaps(live, from), live)
  {
    if live != [] {
      var b, rest := live[0], live[1..];
      var tail := Gaps(rest, b.End());
      GapsDisjoint(rest, b.End());
      GapsWithin(rest, b.End());
      LiveShape(rest, b.End());
      GapsCons(live, from);
      forall g, c | g in Gaps(live, from) && c in live
        ensures g.End() <= c.at || c.End() <= g.at
      {
        assert g in tail || (g.at == from && g.End() == b.at);
        assert c == b || c in rest;
      }
    }
  }

  /** The free list is strictly ascending, no two chunks touch, none touches the spare
      area, every chunk is a word multiple with room for a header, and none meets a live block. */
  lemma {:induction false} GapShape(live: seq<Block>, from: nat)
    requires Placed(live, from)
    ensures Apart(Gaps(live, from))
    ensures Within(Gaps(live, from), from, Top(live, from))
    ensures Disjoint(Gaps(live, from), live)
  {
    GapsApart(live, from);
    GapsWithin(live, from);
    GapsDisjoint(live, from);
  }

  ghost predicate InLive(live: seq<Block>, x: nat) {
    exists b | b in live :: b.at <= x < b.End()
  }

  ghost predicate InFree(free: seq<Chunk>, x: nat) {
    exists g | g in free :: g.at <= x < g.End()
  }

  /** Live and free chunks tile [from, Top): each byte lies in exactly one of them. */
  lemma {:induction false} Tiled(live: seq<Block>, from: nat, x: nat)
    requires Placed(live, from) && from <= x < Top(live, from)
    ensures InLive(live, x) <==> !InFree(Gaps(live, from), x)
  {
    GapsDisjoint(live, from);
    assert !(InLive(live, x) && InFree(Gaps(live, from), x));
    if live != [] {
      var b, tail := live[0], Gaps(live[1..], live[0].End());
      assert b in live;
      GapsCons(live, from);
      if x < b.at {
        assert Chunk(from, b.at - from) in Gaps(live, from);
      } else if b.End() <= x {
        Tiled(live[1..], b.End(), x);
        assert forall c | c in live[1..] :: c in live;
        assert forall g | g in tail :: g in Gaps(live, from);
      }
    }
  }

  function SumFree(free: seq<Chunk>): nat {
    if free == [] then 0 else free[0].size + SumFree(free[1..])
  }

  function SumLive(live: seq<Block>): nat {
    if live == [] then 0 else live[0].size + SumLive(live[1..])
  }

  /** Conservation: what lies between the pool header and the spare area is live or free. */
  lemma {:induction false} SumsTile(live: seq<Block>, from: nat)
    requires Placed(live, from)
    ensures Top(live, from) == from + SumLive(live) + SumFree(Gaps(live, from))
  {
    if live != [] {
      var tail := Gaps(live[1..], live[0].End());
      SumsTile(live[1..], live[0].End());
      if from < live[0].at {
        assert Gaps(live, from)[1..] == tail;
      } else {
        assert Gaps(live, from) == tail;
      }
    }
  }

  // ----- freeing -----

  /** A free list and the offset where the spare area starts. */
  datatype Spare = Spare(free: seq<Chunk>, offset: nat) {
    function Behind(before: seq<Chunk>): Spare { Spare(before + free, offset) }
  }

  /** A chunk with no free chunk before it: it merges with the next chunk, or with the
      spare area, or stays. */
  function Settle(free: seq<Chunk>, offset: nat, c: Chunk): Spare {
    if free != [] && c.End() == free[0].at then Spare([Chunk(c.at, c.size + free[0].size)] + free[1..], offset)
    else if c.End() == offset then Spare(free, c.at)
    else Spare([c] + free, offset)
  }

  /** What mm_insert_chunk makes of a free list and the spare offset: a chunk that starts
      where its predecessor ends takes the predecessor in, and the result settles. */
  function Absorb(free: seq<Chunk>, offset: nat, c: Chunk): Spare
    decreases |free|
  {
    if free == [] || c.at < free[0].at then Settle(free, offset, c)
    else if free[0].End() == c.at then Settle(free[1..], offset, Chunk(free[0].at, free[0].size + c.size))
    else Absorb(free[1..], offset, c).Behind([free[0]])
  }

  predicate HasBlock(live: seq<Block>, at: nat) {
    live != [] && (live[0].at == at || HasBlock(live[1..], at))
  }

  function BlockAt(live: seq<Block>, at: nat): (b: Block)
    requires HasBlock(live, at)
    ensures b in live && b.at == at
  {
    if live[0].at == at then live[0] else BlockAt(live[1..], at)
  }

  /** A chunk whose end is where the remaining canonical list begins. */
  lemma {:induction false} SettleIsCanonical(live: seq<Block>, from: nat, mid: nat)
    requires Placed(live, mid) && from < mid
    ensures Gaps(live, mid) != [] ==> from < Gaps(live, mid)[0].at
    ensures Settle(Gaps(live, mid), Top(live, mid), Chunk(from, mid - from)) == Spare(Gaps(live, from), Top(live, from))
  {
    if live != [] {
      var tail := Gaps(live[1..], live[0].End());
      GapsCons(live, mid);
      GapsCons(live, from);
      if mid == live[0].at {
        GapsWithin(live[1..], live[0].End());
        assert live[0].End() <= Top(live, mid) by { LiveShape(live[1..], live[0].End()); }
        assert tail != [] ==> tail[0] in tail;
        assert Gaps(live, from) == [Chunk(from, mid - from)] + tail;
      } else {
        assert Gaps(live, mid)[0] == Chunk(mid, live[0].at - mid);
      }
    }
  }

  lemma {:induction false} AbsorbFirstBlock(live: seq<Block>, from: nat)
    requires live != [] && Placed(live, from)
    ensures Absorb(Gaps(live, from), Top(live, from), Chunk(live[0].at, live[0].size))
         == Spare(Gaps(live[1..], from), Top(live[1..], from))
  {
    var b, rest := live[0], live[1..];
    GapsCons(live, from);
    SettleIsCanonical(rest, from, b.End());
    if from < b.at {
      assert Gaps(live, from)[0] == Chunk(from, b.at - from);
    }
  }

  lemma {:induction false} AbsorbSkips(g: Chunk, tail: seq<Chunk>, top: nat, c: Chunk)
    requires g.at <= c.at && g.End() != c.at
    ensures Absorb([g] + tail, top, c) == Absorb(tail, top, c).Behind([g])
  {
    assert ([g] + tail)[1..] == tail;
  }

  /** Six-way coalescing is complete: the list after a free is the canonical list of the
      remaining live blocks, and so is the spare offset. */
  lemma {:induction false} AbsorbIsCanonical(live: seq<Block>, from: nat, at: nat)
    requires Placed(live, from) && HasBlock(live, at)
    ensures Absorb(Gaps(live, from), Top(live, from), Chunk(at, BlockAt(live, at).size))
         == Spare(Gaps(Remove(live, at), from), Top(Remove(live, at), from))
  {
    hide Gaps, Absorb;
    if live[0].at == at {
      AbsorbFirstBlock(live, from);
    } else {
      var b, rest, live' := live[0], live[1..], Remove(live, at);
      var c := Chunk(at, BlockAt(rest, at).size);
      AbsorbIsCanonical(rest, b.End(), at);
      LiveShape(rest, b.End());
      assert live'[0] == b && live'[1..] == Remove(rest, at);
      GapsCons(live, from);
      GapsCons(live', from);
      if from < b.at {
        AbsorbSkips(Chunk(from, b.at - from), Gaps(rest, b.End()), Top(rest, b.End()), c);
      }
    }
  }

  lemma {:induction false} RemoveKeepsPlaced(live: seq<Block>, from: nat, at: nat)
    requires Placed(live, from) && from % 8 == 0
    ensures Placed(Remove(live, at), from)
    ensures Top(Remove(live, at), from) <= Top(live, from)
  {
    if live != [] {
      var b, rest := live[0], live[1..];
      if b.at == at {
        LiveShape(rest, b.End());
      } else {
        RemoveKeepsPlaced(rest, b.End(), at);
        assert Remove(live, at)[1..] == Remove(rest, at);
      }
    }
  }
}
