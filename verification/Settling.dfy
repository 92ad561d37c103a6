/** Repeated passes, uniqueness of the settled placement, and rigid translation. */
module Settling {
  import opened Magnet

  // ---- repeated passes settle any acyclic graph ----

  /** A timeline no pass moves any more: it follows nothing, or follows through a done edge. */
  ghost predicate Stable<T>(edges: seq<Edge<T>>, done: set<nat>, t: T) {
    !IsFollower(edges, t) || exists j :: j in done && j < |edges| && edges[j].follower == t
  }

  /** The done edges are satisfied and their leaders no longer move. */
  ghost predicate Done<T>(m: map<T, real>, dur: map<T, real>, edges: seq<Edge<T>>, done: set<nat>)
    requires Known(m, dur, edges)
  {
    forall i :: i in done ==> i < |edges| && Satisfied(m, dur, edges[i]) && Stable(edges, done, edges[i].leader)
  }

  /** Throughout a pass every stable timeline keeps its start. */
  lemma {:induction false} StableKept<T>(m: map<T, real>, dur: map<T, real>, edges: seq<Edge<T>>, done: set<nat>,
                                         n: nat, t: T)
    requires Known(m, dur, edges) && OneEdgeEach(edges) && Done(m, dur, edges, done)
    requires n <= |edges| && t in m && Stable(edges, done, t)
    ensures Pass(m, dur, edges[..n])[t] == m[t]
    decreases n
  {
    if n > 0 {
      assert edges[..n][..n - 1] == edges[..n - 1];
      StableKept(m, dur, edges, done, n - 1, t);
      if edges[n - 1].follower == t {
        assert IsFollower(edges, t);
        assert n - 1 in done;
        StableKept(m, dur, edges, done, n - 1, edges[n - 1].leader);
      }
    }
  }

  /** An edge whose leader is stable is satisfied after the pass, and joins the done ones. */
  lemma PassDoes<T>(m: map<T, real>, dur: map<T, real>, edges: seq<Edge<T>>, done: set<nat>, e: nat)
    requires Known(m, dur, edges) && OneEdgeEach(edges) && Done(m, dur, edges, done)
    requires e < |edges| && Stable(edges, done, edges[e].leader)
    ensures Satisfied(Pass(m, dur, edges), dur, edges[e])
  {
    PassPlaces(m, dur, edges, e);
    StableKept(m, dur, edges, done, e, edges[e].leader);
    StableKept(m, dur, edges, done, |edges|, edges[e].leader);
    assert edges[..|edges|] == edges;
  }

  lemma PassExtendsDone<T>(m: map<T, real>, dur: map<T, real>, edges: seq<Edge<T>>, done: set<nat>, e: nat)
    requires Known(m, dur, edges) && OneEdgeEach(edges) && Done(m, dur, edges, done)
    requires e < |edges| && Stable(edges, done, edges[e].leader)
    ensures Done(Pass(m, dur, edges), dur, edges, done + {e})
  {
    forall i | i in done + {e}
      ensures Satisfied(Pass(m, dur, edges), dur, edges[i]) && Stable(edges, done + {e}, edges[i].leader)
    {
      PassDoes(m, dur, edges, done, i);
      StableGrows(edges, done, e, edges[i].leader);
    }
  }

  lemma StableGrows<T>(edges: seq<Edge<T>>, done: set<nat>, e: nat, t: T)
    requires Stable(edges, done, t)
    ensures Stable(edges, done + {e}, t)
  {
  }

  /** Climbing from an undone edge reaches one whose leader is stable. */
  lemma {:induction false} NextEdge<T>(edges: seq<Edge<T>>, rank: map<T, nat>, done: set<nat>, i: nat) returns (e: nat)
    requires Ranked(edges, rank) && i < |edges| && i !in done
    ensures e < |edges| && e !in done && Stable(edges, done, edges[e].leader)
    decreases if i < |edges| && edges[i].leader in rank then rank[edges[i].leader] else 0
  {
    if Stable(edges, done, edges[i].leader) {
      e := i;
    } else {
      var j :| 0 <= j < |edges| && edges[j].follower == edges[i].leader;
      e := NextEdge(edges, rank, done, j);
    }
  }

  function Indices(n: nat): (s: set<nat>)
    ensures |s| == n
    ensures forall i: nat :: i in s <==> i < n
  {
    if n == 0 then {} else Indices(n - 1) + {n - 1}
  }

  lemma SomeIndexLeft(done: set<nat>, n: nat) returns (i: nat)
    requires |done| < n && forall k :: k in done ==> k < n
    ensures i < n && i !in done
  {
    if forall k: nat :: k < n ==> k in done {
      assert Indices(n) <= done;
      SubsetSize(Indices(n), done);
    }
    i :| i < n && i !in done;
  }

  lemma {:induction false} SubsetSize(a: set<nat>, b: set<nat>)
    requires a <= b
    ensures |a| <= |b|
    decreases |a|
  {
    if |a| > 0 {
      var x :| x in a;
      SubsetSize(a - {x}, b - {x});
    }
  }

  lemma AllIndices(done: set<nat>, n: nat)
    requires |done| == n && forall k :: k in done ==> k < n
    ensures forall k: nat :: k < n ==> k in done
  {
    forall k: nat | k < n
      ensures k in done
    {
      if k !in done {
        SubsetSize(done + {k}, Indices(n));
      }
    }
  }

  /** Every pass makes at least one more edge done, until all are. */
  lemma {:induction false} PassesDo<T>(m: map<T, real>, dur: map<T, real>, edges: seq<Edge<T>>, rank: map<T, nat>,
                                       n: nat) returns (done: set<nat>)
    requires Known(m, dur, edges) && OneEdgeEach(edges) && Ranked(edges, rank) && n <= |edges|
    ensures |done| == n && Done(Passes(m, dur, edges, n), dur, edges, done)
    decreases n
  {
    if n == 0 {
      done := {};
    } else {
      var prior := PassesDo(m, dur, edges, rank, n - 1);
      var i := SomeIndexLeft(prior, |edges|);
      var e := NextEdge(edges, rank, prior, i);
      PassExtendsDone(Passes(m, dur, edges, n - 1), dur, edges, prior, e);
      done := prior + {e};
    }
  }

  /**
   * For any acyclic graph with one edge per follower, as many passes as there are
   * edges satisfy all of them, in whatever order they are stored.
   */
  lemma {:induction false} PassesSettle<T>(m: map<T, real>, dur: map<T, real>, edges: seq<Edge<T>>, rank: map<T, nat>,
                                           n: nat)
    requires Known(m, dur, edges) && OneEdgeEach(edges) && Ranked(edges, rank) && n >= |edges|
    ensures AllSatisfied(Passes(m, dur, edges, n), dur, edges)
    decreases n
  {
    if n == |edges| {
      var done := PassesDo(m, dur, edges, rank, n);
      AllIndices(done, n);
    } else {
      PassesSettle(m, dur, edges, rank, n - 1);
      SatisfiedIsFixed(Passes(m, dur, edges, n - 1), dur, edges);
    }
  }

  lemma {:induction false} PassesKeep<T>(m: map<T, real>, dur: map<T, real>, edges: seq<Edge<T>>, n: nat, t: T)
    requires Known(m, dur, edges) && t in m && !IsFollower(edges, t)
    ensures Passes(m, dur, edges, n)[t] == m[t]
    decreases n
  {
    if n > 0 {
      PassesKeep(m, dur, edges, n - 1, t);
      PassKeeps(Passes(m, dur, edges, n - 1), dur, edges, t);
    }
  }

  // ---- the settled placement is unique ----

  lemma {:induction false} SolutionAt<T>(m: map<T, real>, k: map<T, real>, dur: map<T, real>, edges: seq<Edge<T>>,
                                         rank: map<T, nat>, t: T)
    requires Known(m, dur, edges) && Known(k, dur, edges) && Ranked(edges, rank) && t in m
    requires AllSatisfied(m, dur, edges) && AllSatisfied(k, dur, edges)
    requires forall x :: x in m && !IsFollower(edges, x) ==> m[x] == k[x]
    ensures m[t] == k[t]
    decreases if t in rank then rank[t] else 0
  {
    if IsFollower(edges, t) {
      var i :| 0 <= i < |edges| && edges[i].follower == t;
      SolutionAt(m, k, dur, edges, rank, edges[i].leader);
      assert Satisfied(m, dur, edges[i]) && Satisfied(k, dur, edges[i]);
    }
  }

  /** Free timelines determine the whole settled placement. */
  lemma SolutionUnique<T>(m: map<T, real>, k: map<T, real>, dur: map<T, real>, edges: seq<Edge<T>>, rank: map<T, nat>)
    requires Known(m, dur, edges) && Known(k, dur, edges) && Ranked(edges, rank)
    requires AllSatisfied(m, dur, edges) && AllSatisfied(k, dur, edges)
    requires forall x :: x in m && !IsFollower(edges, x) ==> m[x] == k[x]
    ensures m == k
  {
    forall t | t in m
      ensures m[t] == k[t]
    {
      SolutionAt(m, k, dur, edges, rank, t);
    }
  }

  /** The order of storage does not matter in the end. */
  lemma OrderIrrelevant<T>(m: map<T, real>, dur: map<T, real>, edges: seq<Edge<T>>, other: seq<Edge<T>>,
                           rank: map<T, nat>, n: nat)
    requires Known(m, dur, edges) && OneEdgeEach(edges) && Ranked(edges, rank) && n >= |edges|
    requires OneEdgeEach(other) && n >= |other| && multiset(edges) == multiset(other)
    ensures Known(m, dur, other) && Passes(m, dur, edges, n) == Passes(m, dur, other, n)
  {
    SameEdges(edges, other);
    PassesSettle(m, dur, edges, rank, n);
    PassesSettle(m, dur, other, rank, n);
    var a, b := Passes(m, dur, edges, n), Passes(m, dur, other, n);
    forall i | 0 <= i < |edges|
      ensures Satisfied(b, dur, edges[i])
    {
      assert edges[i] in other;
    }
    forall x | x in m && !IsFollower(edges, x)
      ensures a[x] == b[x]
    {
      PassesKeep(m, dur, edges, n, x);
      PassesKeep(m, dur, other, n, x);
    }
    SolutionUnique(a, b, dur, edges, rank);
  }

  lemma SameEdges<T>(edges: seq<Edge<T>>, other: seq<Edge<T>>)
    requires multiset(edges) == multiset(other)
    ensures forall e :: e in edges <==> e in other
    ensures forall i :: 0 <= i < |other| ==> other[i] in edges
    ensures forall i :: 0 <= i < |edges| ==> edges[i] in other
    ensures forall t :: IsFollower(edges, t) <==> IsFollower(other, t)
  {
    assert forall e :: e in edges <==> e in multiset(edges);
    assert forall e :: e in other <==> e in multiset(other);
    assert forall i :: 0 <= i < |other| ==> other[i] in edges;
    assert forall i :: 0 <= i < |edges| ==> edges[i] in other;
  }

  // ---- rigid translation ----

  /** A chain of edges leading from t to x, each one's follower leading the next. */
  ghost predicate Chain<T>(edges: seq<Edge<T>>, path: seq<nat>, t: T, x: T) {
    && |path| > 0
    && (forall k :: 0 <= k < |path| ==> path[k] < |edges|)
    && edges[path[0]].leader == t
    && edges[path[|path| - 1]].follower == x
    && (forall k :: 0 < k < |path| ==> edges[path[k]].leader == edges[path[k - 1]].follower)
  }

  /** x follows t, directly or through other timelines. */
  ghost predicate Follows<T>(edges: seq<Edge<T>>, x: T, t: T) {
    exists path: seq<nat> :: Chain(edges, path, t, x)
  }

  lemma FollowsThroughLeader<T>(edges: seq<Edge<T>>, i: nat, t: T)
    requires OneEdgeEach(edges) && i < |edges|
    ensures Follows(edges, edges[i].follower, t) <==> edges[i].leader == t || Follows(edges, edges[i].leader, t)
  {
    var x := edges[i].follower;
    if edges[i].leader == t {
      assert Chain(edges, [i], t, x);
    }
    if Follows(edges, edges[i].leader, t) {
      var path: seq<nat> :| Chain(edges, path, t, edges[i].leader);
      assert Chain(edges, path + [i], t, x);
    }
    if Follows(edges, x, t) {
      var path: seq<nat> :| Chain(edges, path, t, x);
      var n := |path| - 1;
      assert path[n] == i;
      if n > 0 {
        assert Chain(edges, path[..n], t, edges[i].leader);
      }
    }
  }

  lemma FollowsIsFollower<T>(edges: seq<Edge<T>>, x: T, t: T)
    ensures Follows(edges, x, t) ==> IsFollower(edges, x)
  {
    if Follows(edges, x, t) {
      var path: seq<nat> :| Chain(edges, path, t, x);
      assert edges[path[|path| - 1]].follower == x;
    }
  }

  lemma {:induction false} RigidAt<T>(m: map<T, real>, k: map<T, real>, dur: map<T, real>, edges: seq<Edge<T>>,
                                      rank: map<T, nat>, t: T, d: real, x: T)
    requires Known(m, dur, edges) && Known(k, dur, edges) && OneEdgeEach(edges) && Ranked(edges, rank)
    requires AllSatisfied(m, dur, edges) && AllSatisfied(k, dur, edges)
    requires t in m && !IsFollower(edges, t) && x in m
    requires forall y :: y in m && !IsFollower(edges, y) ==> k[y] == if y == t then m[y] + d else m[y]
    ensures k[x] == if x == t || Follows(edges, x, t) then m[x] + d else m[x]
    decreases if x in rank then rank[x] else 0
  {
    if IsFollower(edges, x) {
      var i :| 0 <= i < |edges| && edges[i].follower == x;
      RigidAt(m, k, dur, edges, rank, t, d, edges[i].leader);
      FollowsThroughLeader(edges, i, t);
      assert Satisfied(m, dur, edges[i]) && Satisfied(k, dur, edges[i]);
    } else {
      FollowsIsFollower(edges, x, t);
    }
  }

  /**
   * Shifting a free timeline of a settled placement and settling again moves it
   * and all that follow it, directly or not, by the same amount and nothing else.
   */
  lemma RigidTranslation<T>(m: map<T, real>, dur: map<T, real>, edges: seq<Edge<T>>, rank: map<T, nat>,
                            t: T, d: real, n: nat)
    requires Known(m, dur, edges) && OneEdgeEach(edges) && Ranked(edges, rank) && AllSatisfied(m, dur, edges)
    requires t in m && !IsFollower(edges, t)
    requires n >= |edges| || (n >= 1 && LeaderFirst(edges))
    ensures forall x :: x in m ==>
              Passes(m[t := m[t] + d], dur, edges, n)[x] == if x == t || Follows(edges, x, t) then m[x] + d else m[x]
  {
    var shifted := m[t := m[t] + d];
    var k := Passes(shifted, dur, edges, n);
    if n >= |edges| {
      PassesSettle(shifted, dur, edges, rank, n);
    } else {
      LeaderFirstSettles(Passes(shifted, dur, edges, n - 1), dur, edges);
    }
    forall y | y in m && !IsFollower(edges, y)
      ensures k[y] == if y == t then m[y] + d else m[y]
    {
      PassesKeep(shifted, dur, edges, n, y);
    }
    forall x | x in m
      ensures k[x] == if x == t || Follows(edges, x, t) then m[x] + d else m[x]
    {
      RigidAt(m, k, dur, edges, rank, t, d, x);
    }
  }

  // ---- acyclic graphs are exactly the ranked ones ----

  ghost predicate Acyclic<T>(edges: seq<Edge<T>>) {
    forall i :: 0 <= i < |edges| ==> !Follows(edges, edges[i].follower, edges[i].follower)
  }

  /** The edges on the way from a timeline up to the end of its leaders. */
  ghost function Above<T>(edges: seq<Edge<T>>, t: T): set<nat> {
    set i: nat | i < |edges| && (edges[i].follower == t || Follows(edges, t, edges[i].follower))
  }

  lemma AboveGrows<T>(edges: seq<Edge<T>>, i: nat)
    requires OneEdgeEach(edges) && Acyclic(edges) && i < |edges|
    ensures |Above(edges, edges[i].leader)| < |Above(edges, edges[i].follower)|
  {
    var up, low := Above(edges, edges[i].leader), Above(edges, edges[i].follower);
    forall j | j in up
      ensures j in low
    {
      FollowsThroughLeader(edges, i, edges[j].follower);
    }
    FollowsThroughLeader(edges, i, edges[i].follower);
    assert i in low && i !in up;
    SubsetSize(up + {i}, low);
  }

  /** Counting the edges above each timeline ranks any graph without a cycle. */
  lemma AcyclicIsRanked<T>(edges: seq<Edge<T>>) returns (rank: map<T, nat>)
    requires OneEdgeEach(edges) && Acyclic(edges)
    ensures Ranked(edges, rank)
  {
    var ends := (set i: nat | i < |edges| :: edges[i].leader) + (set i: nat | i < |edges| :: edges[i].follower);
    rank := map t | t in ends :: |Above(edges, t)|;
    forall i | 0 <= i < |edges|
      ensures edges[i].leader in rank && edges[i].follower in rank && rank[edges[i].leader] < rank[edges[i].follower]
    {
      AboveGrows(edges, i);
    }
  }

  /** Along a chain the rank grows, so a ranked graph has no cycle. */
  lemma {:induction false} ChainClimbs<T>(edges: seq<Edge<T>>, rank: map<T, nat>, path: seq<nat>, t: T, x: T)
    requires Ranked(edges, rank) && Chain(edges, path, t, x)
    ensures t in rank && x in rank && rank[t] < rank[x]
    decreases |path|
  {
    var n := |path| - 1;
    if n > 0 {
      ChainClimbs(edges, rank, path[..n], t, edges[path[n - 1]].follower);
    }
  }

  lemma RankedIsAcyclic<T>(edges: seq<Edge<T>>, rank: map<T, nat>)
    requires Ranked(edges, rank)
    ensures Acyclic(edges)
  {
    forall i | 0 <= i < |edges|
      ensures !Follows(edges, edges[i].follower, edges[i].follower)
    {
      if Follows(edges, edges[i].follower, edges[i].follower) {
        var path: seq<nat> :| Chain(edges, path, edges[i].follower, edges[i].follower);
        ChainClimbs(edges, rank, path, edges[i].follower, edges[i].follower);
      }
    }
  }
}
