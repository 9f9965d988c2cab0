/** Most-recently-used lists. */
module Recency {

  function Without(l: seq<nat>, x: nat): (r: seq<nat>)
    ensures |r| <= |l| && x !in r && forall y :: y in r ==> y in l
    ensures x !in l ==> r == l
  {
    if l == [] then []
    else if l[0] == x then Without(l[1..], x)
    else [l[0]] + Without(l[1..], x)
  }

  function Take(l: seq<nat>, n: nat): (r: seq<nat>)
    ensures |r| <= n && |r| <= |l|
  {
    if |l| <= n then l else l[..n]
  }

  predicate Distinct(l: seq<nat>) {
    forall i, j :: 0 <= i < j < |l| ==> l[i] != l[j]
  }

  /** `x` moved, or added, to the front of a list of at most `n`. */
  function Touch(l: seq<nat>, x: nat, n: nat): seq<nat> {
    Take([x] + Without(l, x), n)
  }

  /** The different requests of a run, the most recent first. */
  function ByRecency(requests: seq<nat>): (l: seq<nat>) {
    if requests == [] then []
    else
      var x := requests[|requests| - 1];
      [x] + Without(ByRecency(requests[..|requests| - 1]), x)
  }

  /** `x` was requested after the last request of `y`. */
  ghost predicate Later(requests: seq<nat>, x: nat, y: nat) {
    exists k :: 0 <= k < |requests| && requests[k] == x && y !in requests[k..]
  }

  /** The list holds the values requested and no others. */
  lemma {:induction false} RecencyMembers(requests: seq<nat>, y: nat)
    ensures y in ByRecency(requests) <==> y in requests
  {
    if requests != [] {
      var n := |requests| - 1;
      var x, before := requests[n], ByRecency(requests[..n]);
      RecencyMembers(requests[..n], y);
      assert requests == requests[..n] + [x];
      if y in before && y != x {
        StillIn(before, x, y);
      }
    }
  }

  /** And it holds them in the order of their last requests. */
  lemma {:induction false} RecencyOrder(requests: seq<nat>, i: nat, j: nat)
    requires i < j < |ByRecency(requests)|
    ensures Later(requests, ByRecency(requests)[i], ByRecency(requests)[j])
  {
    hide Without, Later;
    var n := |requests| - 1;
    var front, x := requests[..n], requests[n];
    var before := ByRecency(front);
    var rest := Without(before, x);
    assert requests == front + [x];
    assert rest[j - 1] in rest;
    if i == 0 {
      LastIsLater(front, x, rest[j - 1]);
    } else {
      var i', j' := WithoutOrder(before, x, i - 1, j - 1);
      RecencyOrder(front, i', j');
      StillLater(front, x, before[i'], before[j']);
    }
  }

  lemma LastIsLater(front: seq<nat>, x: nat, y: nat)
    requires y != x
    ensures Later(front + [x], x, y)
  {
    var all := front + [x];
    assert all[|front|] == x && all[|front|..] == [x];
  }

  lemma StillLater(front: seq<nat>, x: nat, u: nat, w: nat)
    requires Later(front, u, w) && w != x
    ensures Later(front + [x], u, w)
  {
    var k :| 0 <= k < |front| && front[k] == u && w !in front[k..];
    var all := front + [x];
    assert all[k] == u && all[k..] == front[k..] + [x];
  }

  lemma {:induction false} StillIn(l: seq<nat>, x: nat, y: nat)
    requires y in l && y != x
    ensures y in Without(l, x)
  {
    if l[0] != y {
      StillIn(l[1..], x, y);
    }
  }

  /** The list a run of requests leaves in a cache of `n` that moves each to the front. */
  function Touched(requests: seq<nat>, n: nat): seq<nat> {
    if requests == [] then []
    else Touch(Touched(requests[..|requests| - 1], n), requests[|requests| - 1], n)
  }

  lemma {:induction false} WithoutAt(l: seq<nat>, k: nat)
    requires Distinct(l) && k < |l|
    ensures Without(l, l[k]) == l[..k] + l[k + 1..]
  {
    if k == 0 {
      assert l[0] !in l[1..];
    } else {
      assert Distinct(l[1..]);
      WithoutAt(l[1..], k - 1);
      assert l[..k] + l[k + 1..] == [l[0]] + (l[1..][..k - 1] + l[1..][k..]);
    }
  }

  /** What is left keeps its order. */
  lemma {:induction false} WithoutOrder(l: seq<nat>, x: nat, i: nat, j: nat) returns (i': nat, j': nat)
    requires i < j < |Without(l, x)|
    ensures i' < j' < |l| && l[i'] == Without(l, x)[i] && l[j'] == Without(l, x)[j]
  {
    if l[0] == x {
      i', j' := WithoutOrder(l[1..], x, i, j);
      i', j' := i' + 1, j' + 1;
    } else if i == 0 {
      assert Without(l[1..], x)[j - 1] in l[1..] && Without(l, x)[j] == Without(l[1..], x)[j - 1];
      var k :| 0 <= k < |l[1..]| && l[1..][k] == Without(l[1..], x)[j - 1];
      i', j' := 0, k + 1;
    } else {
      i', j' := WithoutOrder(l[1..], x, i - 1, j - 1);
      i', j' := i' + 1, j' + 1;
    }
  }

  lemma WithoutDistinct(l: seq<nat>, x: nat)
    requires Distinct(l)
    ensures Distinct([x] + Without(l, x))
  {
    hide Without;
    if x in l {
      var k :| 0 <= k < |l| && l[k] == x;
      WithoutAt(l, k);
    }
  }

  /** Lists that agree as far as `n` are cut alike. */
  lemma TakeSame(a: seq<nat>, b: seq<nat>, n: nat)
    requires |a| < n ==> |a| == |b|
    requires |a| >= n ==> |b| >= n
    requires forall i :: 0 <= i < n && i < |a| ==> a[i] == b[i]
    ensures Take(a, n) == Take(b, n)
  {
  }

  /** Dropping an early element commutes with the cut, as far as the front element leaves room. */
  lemma CutEarly(l: seq<nat>, x: nat, k: nat, n: nat)
    requires k < n < |l|
    ensures Take([x] + (l[..n][..k] + l[..n][k + 1..]), n) == Take([x] + (l[..k] + l[k + 1..]), n)
  {
    var a, b := [x] + (l[..n][..k] + l[..n][k + 1..]), [x] + (l[..k] + l[k + 1..]);
    assert |a| == n && |b| == |l|;
    forall i | 0 <= i < n ensures a[i] == b[i] {
    }
    TakeSame(a, b, n);
  }

  lemma CutLate(l: seq<nat>, x: nat, k: nat, n: nat)
    requires n <= k < |l|
    ensures Take([x] + l[..n], n) == Take([x] + (l[..k] + l[k + 1..]), n)
  {
    var a, b := [x] + l[..n], [x] + (l[..k] + l[k + 1..]);
    assert |a| == n + 1 && |b| == |l|;
    forall i | 0 <= i < n ensures a[i] == b[i] {
    }
    TakeSame(a, b, n);
  }

  lemma TakeIs(l: seq<nat>, n: nat)
    ensures Take(l, n) == if |l| <= n then l else l[..n]
  {
  }

  /** Cutting the list to `n` before touching it loses nothing. */
  lemma TouchCut(l: seq<nat>, x: nat, n: nat)
    requires Distinct(l) && 0 < n
    ensures Touch(Take(l, n), x, n) == Take([x] + Without(l, x), n)
  {
    hide Without, Take;
    if n < |l| {
      var c := l[..n];
      TakeIs(l, n);
      if x in c {
        var k :| 0 <= k < |c| && c[k] == x;
        WithoutAt(l, k);
        WithoutAt(c, k);
        CutEarly(l, x, k, n);
      } else if x in l {
        assert l == c + l[n..];
        var k' :| 0 <= k' < |l[n..]| && l[n..][k'] == x;
        var k := n + k';
        WithoutAt(l, k);
        CutLate(l, x, k, n);
      } else {
        TakeSame([x] + c, [x] + l, n);
      }
    } else {
      TakeIs(l, n);
    }
  }

  /** In every run, a cache that moves each request to the front holds exactly the `n` most recently
      requested different values, in recency order. */
  lemma {:induction false} TouchedIsRecent(requests: seq<nat>, n: nat)
    requires 0 < n
    ensures Distinct(ByRecency(requests))
    ensures Touched(requests, n) == Take(ByRecency(requests), n)
  {
    if requests != [] {
      var front, x := requests[..|requests| - 1], requests[|requests| - 1];
      TouchedIsRecent(front, n);
      WithoutDistinct(ByRecency(front), x);
      TouchCut(ByRecency(front), x, n);
    }
  }
}
