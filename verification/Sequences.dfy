/** Sequences with one element more or less, and without repetitions. */
module Sequences {

  function With<A>(s: seq<A>, k: nat, x: A): seq<A>
    requires k <= |s|
  {
    s[..k] + [x] + s[k..]
  }

  function Without<A>(s: seq<A>, k: nat): seq<A>
    requires k < |s|
  {
    s[..k] + s[k + 1..]
  }

  ghost predicate Distinct<A>(s: seq<A>) {
    forall i, j | 0 <= i < j < |s| :: s[i] != s[j]
  }

  ghost function Members<A>(s: seq<A>): set<A> {
    set x | x in s
  }

  lemma {:induction false} MemberCount<A>(s: seq<A>)
    requires Distinct(s)
    ensures |Members(s)| == |s|
  {
    if s != [] {
      MemberCount(s[1..]);
      assert Members(s) == Members(s[1..]) + {s[0]};
    }
  }

  /** Between two ends, positions move by one. */
  lemma {:induction false} WithinEnds<A>(first: A, s: seq<A>, last: A, k: nat, x: A)
    requires k <= |s|
    ensures [first] + With(s, k, x) + [last] == With([first] + s + [last], k + 1, x)
  {
    var c := [first] + s + [last];
    assert c[..k + 1] == [first] + s[..k] && c[k + 1..] == s[k..] + [last];
  }

  lemma {:induction false} WithoutInEnds<A>(first: A, s: seq<A>, last: A, k: nat)
    requires k < |s|
    ensures [first] + Without(s, k) + [last] == Without([first] + s + [last], k + 1)
  {
    var c := [first] + s + [last];
    assert c[..k + 1] == [first] + s[..k] && c[k + 2..] == s[k + 1..] + [last];
  }
}
