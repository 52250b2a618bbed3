/** Sorted insertion behind equal keys, and what a series of such insertions amounts to. */
module StableSort {
  import opened Sequences

  /** In front of the first element with a greater key. */
  function InsertStable<T>(xs: seq<T>, x: T, key: T -> int): seq<T> {
    if xs == [] || key(xs[0]) > key(x) then [x] + xs else [xs[0]] + InsertStable(xs[1..], x, key)
  }

  /** The elements added one by one, in this order. */
  function AddAll<T>(xs: seq<T>, key: T -> int): seq<T> {
    if xs == [] then [] else InsertStable(AddAll(xs[..|xs| - 1], key), xs[|xs| - 1], key)
  }

  lemma {:induction false} AddAllOne<T>(xs: seq<T>, x: T, key: T -> int)
    ensures AddAll(xs + [x], key) == InsertStable(AddAll(xs, key), x, key)
  {
    assert (xs + [x])[..|xs|] == xs;
  }

  ghost predicate Sorted<T>(xs: seq<T>, key: T -> int) {
    forall i, j | 0 <= i < j < |xs| :: key(xs[i]) <= key(xs[j])
  }

  /** The elements with key k, in order. */
  function Only<T>(xs: seq<T>, key: T -> int, k: int): seq<T> {
    if xs == [] then []
    else if key(xs[0]) == k then [xs[0]] + Only(xs[1..], key, k)
    else Only(xs[1..], key, k)
  }

  /** The position InsertStable takes. */
  ghost predicate Place<T>(xs: seq<T>, x: T, key: T -> int, k: nat) {
    && k <= |xs| && (forall i | 0 <= i < k :: key(xs[i]) <= key(x))
    && (k < |xs| ==> key(xs[k]) > key(x))
  }

  lemma {:induction false} WithBehindFirst<T>(xs: seq<T>, k: nat, x: T)
    requires 0 < k <= |xs|
    ensures With(xs, k, x) == [xs[0]] + With(xs[1..], k - 1, x)
  {
    assert xs[..k] == [xs[0]] + xs[1..][..k - 1];
  }

  lemma {:induction false} InsertStableAt<T>(xs: seq<T>, x: T, key: T -> int, k: nat)
    requires Place(xs, x, key, k)
    ensures InsertStable(xs, x, key) == With(xs, k, x)
  {
    if 0 < k {
      hide With;
      assert key(xs[0]) <= key(x);
      assert forall i | 0 <= i < |xs[1..]| :: xs[1..][i] == xs[i + 1];
      WithBehindFirst(xs, k, x);
      InsertStableAt(xs[1..], x, key, k - 1);
    } else {
      assert xs[..0] == [] && xs[0..] == xs;
    }
  }

  lemma {:induction false} PlaceExists<T>(xs: seq<T>, x: T, key: T -> int) returns (k: nat)
    ensures Place(xs, x, key, k)
  {
    k := 0;
    while k < |xs| && key(xs[k]) <= key(x)
      invariant k <= |xs| && forall i | 0 <= i < k :: key(xs[i]) <= key(x)
    {
      k := k + 1;
    }
  }

  lemma {:induction false} InsertKeepsSorted<T>(xs: seq<T>, x: T, key: T -> int)
    requires Sorted(xs, key)
    ensures Sorted(InsertStable(xs, x, key), key)
  {
    var k := PlaceExists(xs, x, key);
    InsertStableAt(xs, x, key, k);
    var ys := With(xs, k, x);
    assert forall i | 0 <= i < |ys| :: ys[i] == if i < k then xs[i] else if i == k then x else xs[i - 1];
  }

  lemma {:induction false} OnlyAppend<T>(xs: seq<T>, ys: seq<T>, key: T -> int, k: int)
    ensures Only(xs + ys, key, k) == Only(xs, key, k) + Only(ys, key, k)
  {
    if xs == [] {
      assert xs + ys == ys;
    } else {
      assert (xs + ys)[1..] == xs[1..] + ys;
      OnlyAppend(xs[1..], ys, key, k);
      var s, t := Only(xs[1..], key, k), Only(ys, key, k);
      assert [xs[0]] + (s + t) == [xs[0]] + s + t;
    }
  }

  lemma {:induction false} OnlyAbove<T>(xs: seq<T>, key: T -> int, k: int)
    requires forall i | 0 <= i < |xs| :: key(xs[i]) != k
    ensures Only(xs, key, k) == []
  {
    if xs != [] { OnlyAbove(xs[1..], key, k); }
  }

  /** Within its key, an element goes last. */
  lemma {:induction false} InsertIsStable<T>(xs: seq<T>, x: T, key: T -> int, k: int)
    requires Sorted(xs, key)
    ensures Only(InsertStable(xs, x, key), key, k) == Only(xs + [x], key, k)
  {
    var p := PlaceExists(xs, x, key);
    InsertStableAt(xs, x, key, p);
    OnlyAppend(xs[..p] + [x], xs[p..], key, k);
    OnlyAppend(xs[..p], [x], key, k);
    OnlyAppend(xs[..p], xs[p..], key, k);
    OnlyAppend(xs, [x], key, k);
    assert xs[..p] + xs[p..] == xs;
    if k == key(x) {
      assert forall i | p <= i < |xs| :: key(xs[p]) <= key(xs[i]);
      OnlyAbove(xs[p..], key, k);
    } else {
      OnlyAbove([x], key, k);
    }
  }

  /** A stable sort: sorted, with the elements of each key in their order. */
  ghost predicate StableSorted<T>(ys: seq<T>, xs: seq<T>, key: T -> int) {
    Sorted(ys, key) && forall k :: Only(ys, key, k) == Only(xs, key, k)
  }

  /** Any series of adds leaves the stable sort of the insertion order. */
  lemma {:induction false} AddsSortStably<T>(xs: seq<T>, key: T -> int)
    ensures StableSorted(AddAll(xs, key), xs, key)
  {
    if xs != [] {
      var rest, x := xs[..|xs| - 1], xs[|xs| - 1];
      var ys := AddAll(rest, key);
      AddsSortStably(rest, key);
      InsertKeepsSorted(ys, x, key);
      forall k ensures Only(InsertStable(ys, x, key), key, k) == Only(xs, key, k) {
        InsertIsStable(ys, x, key, k);
        OnlyAppend(ys, [x], key, k);
        OnlyAppend(rest, [x], key, k);
        assert rest + [x] == xs;
      }
    }
  }

  lemma {:induction false} OnlyFirst<T>(xs: seq<T>, key: T -> int)
    ensures xs != [] ==> Only(xs, key, key(xs[0])) != [] && Only(xs, key, key(xs[0]))[0] == xs[0]
  {
  }

  lemma {:induction false} OnlyHas<T>(xs: seq<T>, key: T -> int, k: int)
    requires Only(xs, key, k) != []
    ensures exists i :: 0 <= i < |xs| && key(xs[i]) == k
  {
    if key(xs[0]) != k {
      OnlyHas(xs[1..], key, k);
      var i :| 0 <= i < |xs[1..]| && key(xs[1..][i]) == k;
      assert key(xs[i + 1]) == k;
    }
  }

  /** Sequences with the same elements in each key are empty together. */
  lemma {:induction false} EmptyTogether<T>(a: seq<T>, b: seq<T>, key: T -> int)
    requires forall k :: Only(b, key, k) == Only(a, key, k)
    ensures a == [] <==> b == []
  {
    OnlyFirst(a, key);
    OnlyFirst(b, key);
    assert a != [] ==> Only(b, key, key(a[0])) != [];
    assert b != [] ==> Only(a, key, key(b[0])) != [];
  }

  lemma {:induction false} HeadsAgree<T>(a: seq<T>, b: seq<T>, key: T -> int)
    requires Sorted(a, key) && StableSorted(b, a, key) && a != [] && b != []
    ensures a[0] == b[0]
  {
    var k, l := key(a[0]), key(b[0]);
    assert Only(b, key, k) == Only(a, key, k) && Only(b, key, l) == Only(a, key, l);
    OnlyFirst(a, key);
    OnlyFirst(b, key);
    OnlyHas(b, key, k);
    OnlyHas(a, key, l);
  }

  lemma {:induction false} TailsAgree<T>(a: seq<T>, b: seq<T>, key: T -> int, k: int)
    requires StableSorted(b, a, key) && a != [] && b != [] && a[0] == b[0]
    ensures Only(b[1..], key, k) == Only(a[1..], key, k)
  {
    assert Only(b, key, k) == Only(a, key, k);
    if key(a[0]) == k {
      var s, t := Only(a[1..], key, k), Only(b[1..], key, k);
      assert ([a[0]] + s)[1..] == s && ([b[0]] + t)[1..] == t;
    }
  }

  /** There is only one. */
  lemma {:induction false} StableSortIsUnique<T>(a: seq<T>, b: seq<T>, key: T -> int)
    requires Sorted(a, key) && StableSorted(b, a, key)
    ensures a == b
  {
    EmptyTogether(a, b, key);
    if a != [] {
      HeadsAgree(a, b, key);
      forall k ensures Only(b[1..], key, k) == Only(a[1..], key, k) {
        TailsAgree(a, b, key, k);
      }
      StableSortIsUnique(a[1..], b[1..], key);
    }
  }
}
