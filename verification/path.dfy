/** Rebuilding the route to a goal by walking the predecessor vector back to
    the start, then reversing the collected vertices. */
module PathReconstruction {
  import opened Wrappers
  import opened Counting

  /** Every predecessor entry names a vertex of the same vector. */
  predicate Closed(p: seq<nat>) {
    forall v :: 0 <= v < |p| ==> p[v] < |p|
  }

  /** The vertex reached from `v` after `k` steps of `current := p[current]`. */
  function Follow(p: seq<nat>, v: nat, k: nat): (r: nat)
    requires Closed(p) && v < |p|
    ensures r < |p|
    decreases k
  {
    if k == 0 then v else Follow(p, p[v], k - 1)
  }

  /** The walk from `v` along predecessors meets `t` at some point. */
  ghost predicate Reaches(p: seq<nat>, v: nat, t: nat)
    requires Closed(p) && v < |p|
  {
    exists k: nat :: Follow(p, v, k) == t
  }

  /** Why no route could be produced. */
  datatype PathError = Unreachable

  /** `path` is the route from `start` to `goal` recorded in `p`: it begins at
      `start`, ends at `goal`, meets `start` nowhere else, and each vertex is
      the predecessor of the one after it. */
  predicate IsChain(p: seq<nat>, start: nat, goal: nat, path: seq<nat>) {
    0 < |path| && path[0] == start && path[|path| - 1] == goal &&
    (forall i :: 0 <= i < |path| ==> path[i] < |p|) &&
    (forall i :: 0 < i < |path| ==> path[i] != start) &&
    (forall i :: 0 <= i < |path| - 1 ==> p[path[i + 1]] == path[i])
  }

  function Reverse(s: seq<nat>): (r: seq<nat>)
    ensures |r| == |s|
    ensures forall i :: 0 <= i < |s| ==> r[i] == s[|s| - 1 - i]
  {
    if |s| == 0 then [] else Reverse(s[1..]) + [s[0]]
  }

  lemma {:induction false} FollowStep(p: seq<nat>, v: nat, k: nat)
    requires Closed(p) && v < |p|
    ensures Follow(p, v, k + 1) == p[Follow(p, v, k)]
    decreases k
  {
    if k > 0 {
      FollowStep(p, p[v], k - 1);
    }
  }

  lemma {:induction false} FollowAdd(p: seq<nat>, v: nat, a: nat, b: nat)
    requires Closed(p) && v < |p|
    ensures Follow(p, v, a + b) == Follow(p, Follow(p, v, a), b)
    decreases a
  {
    if a > 0 {
      FollowAdd(p, p[v], a - 1, b);
    }
  }

  /** Once the walk sits on a vertex that is its own predecessor it stays there. */
  lemma {:induction false} FollowFixed(p: seq<nat>, v: nat, k: nat, m: nat)
    requires Closed(p) && v < |p|
    requires p[Follow(p, v, k)] == Follow(p, v, k) && k <= m
    ensures Follow(p, v, m) == Follow(p, v, k)
    decreases m - k
  {
    if k < m {
      FollowStep(p, v, k);
      FollowFixed(p, v, k + 1, m);
    }
  }

  /** A walk that ever meets `t` meets it within `|p| - 1` steps: a longer
      walk repeats a vertex, and the loop between the repeats can be cut out. */
  lemma {:induction false} ReachesWithin(p: seq<nat>, v: nat, t: nat, k: nat)
    requires Closed(p) && v < |p|
    requires Follow(p, v, k) == t
    ensures exists j :: 0 <= j < |p| && Follow(p, v, j) == t
    decreases k
  {
    if k >= |p| {
      var trace := seq(|p| + 1, i requires 0 <= i => Follow(p, v, i));
      Pigeonhole(trace, |p|);
      var i, j :| 0 <= i < j < |trace| && trace[i] == trace[j];
      FollowAdd(p, v, j, k - j);
      FollowAdd(p, v, i, k - j);
      ReachesWithin(p, v, t, i + (k - j));
    }
  }

  /** A walk that misses `t` during its first `|p|` vertices never meets it. */
  lemma NeverReaches(p: seq<nat>, v: nat, t: nat)
    requires Closed(p) && v < |p|
    requires forall j :: 0 <= j < |p| ==> Follow(p, v, j) != t
    ensures !Reaches(p, v, t)
  {
    if Reaches(p, v, t) {
      var k: nat :| Follow(p, v, k) == t;
      ReachesWithin(p, v, t, k);
    }
  }

  /** A route satisfying `IsChain` is the predecessor walk from `goal` read
      backwards, stopped the first time it meets `start`. */
  lemma {:induction false} ChainIsWalk(p: seq<nat>, start: nat, goal: nat, path: seq<nat>, i: nat)
    requires Closed(p) && goal < |p| && IsChain(p, start, goal, path) && i < |path|
    ensures path[|path| - 1 - i] == Follow(p, goal, i)
  {
    if i > 0 {
      ChainIsWalk(p, start, goal, path, i - 1);
      FollowStep(p, goal, i - 1);
    }
  }

  /** The predecessor vector determines the route uniquely. */
  lemma ChainUnique(p: seq<nat>, start: nat, goal: nat, a: seq<nat>, b: seq<nat>)
    requires Closed(p) && goal < |p|
    requires IsChain(p, start, goal, a) && IsChain(p, start, goal, b)
    ensures a == b
  {
    forall a', b' | IsChain(p, start, goal, a') && IsChain(p, start, goal, b')
      ensures |a'| <= |b'|
    {
      if |b'| < |a'| {
        ChainIsWalk(p, start, goal, a', |b'| - 1);
        ChainIsWalk(p, start, goal, b', |b'| - 1);
      }
    }
    forall i | 0 <= i < |a|
      ensures a[i] == b[i]
    {
      ChainIsWalk(p, start, goal, a, |a| - 1 - i);
      ChainIsWalk(p, start, goal, b, |a| - 1 - i);
    }
  }

  /** The route from `start` to `goal`: the walk `current := p[current]` from
      `goal` until `start`, pushed onto a vector, followed by `start`, and
      reversed. Where that walk never meets `start` the loop would not end;
      here it stops once `|p|` vertices other than `start` have been pushed,
      which is exactly when the walk can no longer meet `start`, and reports
      `Unreachable`. */
  method Reconstruct(p: seq<nat>, start: nat, goal: nat) returns (r: Result<seq<nat>, PathError>)
    requires Closed(p) && start < |p| && goal < |p|
    ensures r.Success? <==> Reaches(p, goal, start)
    ensures r.Success? ==> IsChain(p, start, goal, r.value) && |r.value| <= |p|
    ensures goal == start ==> r == Success([start])
  {
    var path: seq<nat> := [];
    var current := goal;
    while current != start
      invariant |path| < |p|
      invariant goal == start ==> |path| == 0
      invariant current == Follow(p, goal, |path|)
      invariant forall i :: 0 <= i < |path| ==> path[i] == Follow(p, goal, i) && path[i] != start
      decreases |p| - |path|
    {
      if |path| + 1 == |p| {
        forall j | 0 <= j < |p|
          ensures Follow(p, goal, j) != start
        {
          if j < |path| {
            assert path[j] == Follow(p, goal, j);
          }
        }
        NeverReaches(p, goal, start);
        return Failure(Unreachable);
      }
      FollowStep(p, goal, |path|);
      path := path + [current];
      current := p[current];
    }
    var walk := path + [start];
    r := Success(Reverse(walk));
    forall i | 0 <= i < |walk| - 1
      ensures walk[i + 1] == p[walk[i]]
    {
      FollowStep(p, goal, i);
    }
    assert Follow(p, goal, |path|) == start;
    if goal == start {
      assert walk == [start];
      assert Reverse(walk) == [start];
    }
  }
}
