/** In-place application of a permutation by following its cycles. */
module Permutation {

  /** What the sanity check looks for: every index occurs. */
  predicate Covers(p: seq<nat>) {
    forall n :: 0 <= n < |p| ==> n in p
  }

  /** A bijection on the indices. */
  predicate Bijection(p: seq<nat>) {
    && (forall i :: 0 <= i < |p| ==> p[i] < |p|)
    && (forall i, j :: 0 <= i < j < |p| ==> p[i] != p[j])
  }

  ghost predicate InverseOf(q: seq<nat>, p: seq<nat>) {
    && |q| == |p|
    && (forall i :: 0 <= i < |p| ==> p[i] < |p| && q[p[i]] == i)
    && (forall i :: 0 <= i < |q| ==> q[i] < |p| && p[q[i]] == i)
  }

  // ----- the pigeonhole principle

  ghost function Indices(n: nat): (s: set<nat>)
    ensures |s| == n && forall i :: i in s <==> 0 <= i < n
  {
    if n == 0 then {} else Indices(n - 1) + {n - 1}
  }

  ghost function Elements(p: seq<nat>): set<nat> {
    set i | 0 <= i < |p| :: p[i]
  }

  lemma {:induction false} ElementsSize(p: seq<nat>)
    ensures |Elements(p)| <= |p|
  {
    if p == [] {
      assert Elements(p) == {};
    } else {
      var n := |p| - 1;
      ElementsSize(p[..n]);
      assert Elements(p) == Elements(p[..n]) + {p[n]} by {
        assert forall i :: 0 <= i < n ==> p[..n][i] == p[i];
      }
    }
  }

  /** n indices cannot all occur in fewer than n places. */
  lemma Pigeonhole(n: nat, p: seq<nat>)
    requires forall i: nat :: i < n ==> i in p
    ensures n <= |p|
  {
    ElementsSize(p);
    forall x | x in Indices(n) ensures x in Elements(p) {
      assert x in p;
      var i :| 0 <= i < |p| && p[i] == x;
    }
    SubsetSize(Indices(n), Elements(p));
  }

  lemma {:induction false} SubsetSize(a: set<nat>, b: set<nat>)
    requires a <= b
    ensures |a| <= |b|
  {
    if a != {} {
      var x :| x in a;
      SubsetSize(a - {x}, b - {x});
    }
  }

  /** If position i may be left out, an index is missing. */
  lemma NoSparePosition(p: seq<nat>, i: nat)
    requires Covers(p) && i < |p|
    ensures p[i] < |p| && forall j :: 0 <= j < |p| && j != i ==> p[j] != p[i]
  {
    var rest := p[..i] + p[i + 1..];
    if p[i] >= |p| || exists j :: 0 <= j < |p| && j != i && p[j] == p[i] {
      forall x: nat | x < |p| ensures x in rest {
        assert x in p;
        var j :| 0 <= j < |p| && p[j] == x && (j != i);
        assert rest[if j < i then j else j - 1] == x;
      }
      Pigeonhole(|p|, rest);
    }
  }

  /** The sanity check accepts exactly the bijections. */
  lemma CoversIffBijection(p: seq<nat>)
    ensures Covers(p) <==> Bijection(p)
  {
    if Covers(p) {
      forall i | 0 <= i < |p| ensures p[i] < |p| && forall j :: 0 <= j < |p| && j != i ==> p[j] != p[i] {
        NoSparePosition(p, i);
      }
    }
    if Bijection(p) && !Covers(p) {
      var n :| 0 <= n < |p| && n !in p;
      MissingIndex(p, n);
    }
  }

  /** Without the index n, a bijection would map |p| indices into |p| - 1. */
  lemma MissingIndex(p: seq<nat>, n: nat)
    requires Bijection(p) && n < |p|
    ensures n in p
  {
    DistinctSize(p, |p|);
    assert p[..|p|] == p;
    if n !in p {
      assert Elements(p) <= Indices(|p|) - {n};
      SubsetSize(Elements(p), Indices(|p|) - {n});
    }
  }

  lemma {:induction false} DistinctSize(p: seq<nat>, k: nat)
    requires k <= |p| && forall i, j :: 0 <= i < j < |p| ==> p[i] != p[j]
    ensures |Elements(p[..k])| == k
  {
    if k == 0 {
      assert Elements(p[..0]) == {};
    } else {
      DistinctSize(p, k - 1);
      assert Elements(p[..k]) == Elements(p[..k - 1]) + {p[k - 1]} by {
        assert forall i :: 0 <= i < k - 1 ==> p[..k][i] == p[..k - 1][i];
        assert p[..k][k - 1] == p[k - 1];
      }
    }
  }

  ghost function PositionOf(p: seq<nat>, x: nat): (i: nat)
    requires x in p
    ensures i < |p| && p[i] == x
  {
    var i :| 0 <= i < |p| && p[i] == x;
    i
  }

  lemma InverseExists(p: seq<nat>) returns (q: seq<nat>)
    requires Covers(p) && Bijection(p)
    ensures InverseOf(q, p)
  {
    q := seq(|p|, x requires 0 <= x < |p| => PositionOf(p, x));
  }

  // ----- the algorithm

  /** k is finished: its entry is closed off and its element is the permuted one. */
  ghost predicate Finished<T>(p: seq<nat>, v0: seq<T>, perm: seq<nat>, v: seq<T>, k: nat)
    requires |p| == |v0| == |perm| == |v|
  {
    k < |p| && p[k] < |p| && perm[k] == k && v[k] == v0[p[k]]
  }

  /** k has not been touched. */
  ghost predicate Untouched<T>(p: seq<nat>, v0: seq<T>, perm: seq<nat>, v: seq<T>, k: nat)
    requires |p| == |v0| == |perm| == |v|
  {
    k < |p| && perm[k] == p[k] && v[k] == v0[k]
  }

  /** Whole cycles are in `done`; everything else is untouched. */
  ghost predicate Between<T>(p: seq<nat>, v0: seq<T>, perm: seq<nat>, v: seq<T>, done: set<nat>) {
    && |p| == |v0| == |perm| == |v|
    && (forall k :: k in done ==> Finished(p, v0, perm, v, k))
    && (forall k: nat :: k < |p| && k !in done ==> Untouched(p, v0, perm, v, k))
    && (forall k: nat :: k < |p| ==> (k in done <==> p[k] in done))
  }

  /** In the cycle of i: `path` is finished, v[current] holds what was at i. */
  ghost predicate OnCycle<T>(
    p: seq<nat>, q: seq<nat>, v0: seq<T>, perm: seq<nat>, v: seq<T>,
    done: set<nat>, path: set<nat>, i: nat, current: nat)
  {
    && |p| == |v0| == |perm| == |v| == |q| && i < |p| && current < |p|
    && done !! path && i !in done && current !in done && current !in path
    && (forall k :: k in done ==> Finished(p, v0, perm, v, k))
    && (forall k :: k in path ==> Finished(p, v0, perm, v, k))
    && (forall k: nat :: k < |p| && k !in done && k !in path && k != current ==> Untouched(p, v0, perm, v, k))
    && perm[current] == p[current] && v[current] == v0[i]
    && (forall k: nat :: k < |p| ==> (k in done <==> p[k] in done))
    && (forall k :: k in path ==> p[k] in path || p[k] == current)
    && (forall k :: k in path ==> k == i || q[k] in path)
    && (current == i || (q[current] in path && i in path))
  }

  /** Permutes v in place: afterwards v[k] is what v[permutation[k]] was. Fails, leaving v
      alone, when the sizes differ or the input is not a bijection. */
  method ApplyPermutation<T>(permutation: seq<nat>, v: array<T>) returns (ok: bool)
    modifies v
    ensures ok <==> |permutation| == v.Length && Bijection(permutation)
    ensures ok ==> forall k :: 0 <= k < v.Length ==> v[k] == old(v[..])[permutation[k]]
    ensures !ok ==> v[..] == old(v[..])
  {
    if |permutation| != v.Length {
      return false;
    }
    CoversIffBijection(permutation);
    for n := 0 to |permutation|
      invariant forall m :: 0 <= m < n ==> m in permutation
    {
      if n !in permutation {
        return false;
      }
    }
    ghost var q := InverseExists(permutation);
    FollowCycles(permutation, q, v);
    ok := true;
  }

  method FollowCycles<T>(p: seq<nat>, ghost q: seq<nat>, v: array<T>)
    requires |p| == v.Length && InverseOf(q, p)
    modifies v
    ensures forall k :: 0 <= k < v.Length ==> v[k] == old(v[..])[p[k]]
  {
    hide Finished, Untouched;
    var perm := new nat[|p|](i requires 0 <= i < |p| => p[i]);
    ghost var v0 := v[..];
    ghost var done: set<nat> := {};
    assert perm[..] == p;
    BetweenStart(p, v0);
    for i := 0 to |p|
      invariant Between(p, v0, perm[..], v[..], done)
      invariant forall k: nat :: k < i ==> k in done
    {
      done := FollowCycle(p, q, v0, perm, v, done, i);
    }
    forall k | 0 <= k < v.Length ensures v[k] == v0[p[k]] {
      FinishedMeans(p, v0, perm[..], v[..], k);
    }
  }

  lemma BetweenStart<T>(p: seq<nat>, v0: seq<T>)
    requires |p| == |v0|
    ensures Between(p, v0, p, v0, {})
  {}

  lemma FinishedMeans<T>(p: seq<nat>, v0: seq<T>, perm: seq<nat>, v: seq<T>, k: nat)
    requires |p| == |v0| == |perm| == |v| && Finished(p, v0, perm, v, k)
    ensures k < |p| && p[k] < |p| && v[k] == v0[p[k]]
  {}

  /** The inner loop: one cycle, or nothing if i lies on a cycle already followed. */
  method FollowCycle<T>(
    p: seq<nat>, ghost q: seq<nat>, ghost v0: seq<T>, perm: array<nat>, v: array<T>, ghost done: set<nat>, i: nat)
    returns (ghost done': set<nat>)
    requires |p| == |v0| == perm.Length == v.Length && InverseOf(q, p) && i < |p|
    requires perm as object != v && Between(p, v0, perm[..], v[..], done)
    modifies perm, v
    ensures Between(p, v0, perm[..], v[..], done') && done <= done' && i in done'
  {
    hide OnCycle, Between, Finished, Untouched;
    var current: nat := i;
    ghost var path: set<nat> := {};
    if i !in done {
      StartCycle(p, q, v0, perm[..], v[..], done, i);
    } else {
      DoneEntry(p, v0, perm[..], v[..], done, i);
    }
    while i != perm[current]
      invariant current < |p|
      invariant i in done ==> current == i && path == {} && perm[i] == i && Between(p, v0, perm[..], v[..], done)
      invariant i !in done ==> OnCycle(p, q, v0, perm[..], v[..], done, path, i, current)
      decreases |Indices(|p|) - done - path|
    {
      ghost var perm0, vs0 := perm[..], v[..];
      NextOnCycle(p, q, v0, perm0, vs0, done, path, i, current);
      var next := perm[current];
      v[current], v[next] := v[next], v[current];
      perm[current] := current;
      assert perm[..] == perm0[current := current];
      assert v[..] == vs0[current := vs0[next]][next := vs0[current]];
      Smaller(p, done, path, current);
      path := path + {current};
      current := next;
    }
    ghost var perm1 := perm[..];
    perm[current] := current;
    assert perm[..] == perm1[current := current];
    if i in done {
      assert perm[..] == perm1;
      done' := done;
    } else {
      EndCycle(p, q, v0, perm1, v[..], done, path, i, current);
      done' := done + path + {current};
    }
  }

  lemma DoneEntry<T>(p: seq<nat>, v0: seq<T>, perm: seq<nat>, v: seq<T>, done: set<nat>, i: nat)
    requires Between(p, v0, perm, v, done) && i in done
    ensures i < |perm| && perm[i] == i
  {}

  lemma StartCycle<T>(p: seq<nat>, q: seq<nat>, v0: seq<T>, perm: seq<nat>, v: seq<T>, done: set<nat>, i: nat)
    requires InverseOf(q, p) && i < |p| && i !in done && Between(p, v0, perm, v, done)
    ensures OnCycle(p, q, v0, perm, v, done, {}, i, i)
  {}

  /** The next position of the cycle is new: a second way into the path would give some
      position two predecessors. */
  lemma NextIsNew<T>(
    p: seq<nat>, q: seq<nat>, v0: seq<T>, perm: seq<nat>, v: seq<T>,
    done: set<nat>, path: set<nat>, i: nat, current: nat)
    requires InverseOf(q, p) && OnCycle(p, q, v0, perm, v, done, path, i, current) && perm[current] != i
    ensures perm[current] == p[current] < |p|
    ensures p[current] !in done && p[current] !in path && p[current] != current
  {
    assert q[p[current]] == current;
  }

  lemma NextOnCycle<T>(
    p: seq<nat>, q: seq<nat>, v0: seq<T>, perm: seq<nat>, v: seq<T>,
    done: set<nat>, path: set<nat>, i: nat, current: nat)
    requires InverseOf(q, p) && OnCycle(p, q, v0, perm, v, done, path, i, current) && perm[current] != i
    ensures current !in done && current !in path
    ensures var next := perm[current];
            && next < |p| && next != current
            && OnCycle(p, q, v0, perm[current := current], v[current := v[next]][next := v[current]],
                       done, path + {current}, i, next)
  {
    NextIsNew(p, q, v0, perm, v, done, path, i, current);
    var next := perm[current];
    var perm', v' := perm[current := current], v[current := v[next]][next := v[current]];
    assert q[next] == current;
    assert Untouched(p, v0, perm, v, next);
    assert forall k :: Finished(p, v0, perm, v, k) && k != current && k != next ==> Finished(p, v0, perm', v', k);
  }

  lemma EndCycle<T>(
    p: seq<nat>, q: seq<nat>, v0: seq<T>, perm: seq<nat>, v: seq<T>,
    done: set<nat>, path: set<nat>, i: nat, current: nat)
    requires InverseOf(q, p) && OnCycle(p, q, v0, perm, v, done, path, i, current) && perm[current] == i
    ensures Between(p, v0, perm[current := current], v, done + path + {current})
    ensures i in done + path + {current}
  {
    var perm', done' := perm[current := current], done + path + {current};
    assert q[i] == current;
    forall k: nat | k < |p| ensures k in done' <==> p[k] in done' {
      assert q[p[k]] == k;
    }
  }

  lemma Smaller(p: seq<nat>, done: set<nat>, path: set<nat>, x: nat)
    requires x < |p| && x !in done && x !in path
    ensures |Indices(|p|) - done - (path + {x})| < |Indices(|p|) - done - path|
  {
    var a := Indices(|p|) - done - path;
    assert x in a && Indices(|p|) - done - (path + {x}) == a - {x};
  }
}
