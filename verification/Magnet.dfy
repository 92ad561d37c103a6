/**
 * Magnetic references on plain values: a placement gives every timeline a start,
 * an edge asks its follower to start where its leader ends, plus an offset.
 */
module Magnet {

  datatype Edge<T> = Edge(follower: T, leader: T, offset: real)

  ghost predicate Known<T>(m: map<T, real>, dur: map<T, real>, edges: seq<Edge<T>>) {
    && m.Keys == dur.Keys
    && forall i :: 0 <= i < |edges| ==> edges[i].follower in m && edges[i].leader in m
  }

  /** One delta application: the follower's start becomes what the edge asks for. */
  function Settle<T>(m: map<T, real>, dur: map<T, real>, e: Edge<T>): map<T, real>
    requires e.leader in m && e.leader in dur
  {
    m[e.follower := m[e.leader] + dur[e.leader] + e.offset]
  }

  /** One pass over the edges in the order they are stored. */
  function Pass<T>(m: map<T, real>, dur: map<T, real>, edges: seq<Edge<T>>): (r: map<T, real>)
    requires Known(m, dur, edges)
    ensures r.Keys == m.Keys
    decreases |edges|
  {
    if edges == [] then m
    else Settle(Pass(m, dur, edges[..|edges| - 1]), dur, edges[|edges| - 1])
  }

  function Passes<T>(m: map<T, real>, dur: map<T, real>, edges: seq<Edge<T>>, n: nat): (r: map<T, real>)
    requires Known(m, dur, edges)
    ensures r.Keys == m.Keys
    decreases n
  {
    if n == 0 then m else Pass(Passes(m, dur, edges, n - 1), dur, edges)
  }

  // ---- what is asked of a placement, and of a list of edges ----

  ghost predicate Satisfied<T>(m: map<T, real>, dur: map<T, real>, e: Edge<T>)
    requires e.leader in m && e.leader in dur && e.follower in m
  {
    m[e.follower] == m[e.leader] + dur[e.leader] + e.offset
  }

  ghost predicate AllSatisfied<T>(m: map<T, real>, dur: map<T, real>, edges: seq<Edge<T>>)
    requires Known(m, dur, edges)
  {
    forall i :: 0 <= i < |edges| ==> Satisfied(m, dur, edges[i])
  }

  /** Binding consumes a timeline's freedom, so it follows through one edge at most. */
  ghost predicate OneEdgeEach<T>(edges: seq<Edge<T>>) {
    forall i, j :: 0 <= i < j < |edges| ==> edges[i].follower != edges[j].follower
  }

  /** Each leader's own edge is stored before the edges of its followers. */
  ghost predicate LeaderFirst<T>(edges: seq<Edge<T>>) {
    forall i, j :: 0 <= i <= j < |edges| ==> edges[i].leader != edges[j].follower
  }

  /** The follow graph has no cycle: a rank grows along every edge. */
  ghost predicate Ranked<T>(edges: seq<Edge<T>>, rank: map<T, nat>) {
    forall i :: 0 <= i < |edges| ==>
      edges[i].leader in rank && edges[i].follower in rank && rank[edges[i].leader] < rank[edges[i].follower]
  }

  ghost predicate IsFollower<T>(edges: seq<Edge<T>>, t: T) {
    exists i :: 0 <= i < |edges| && edges[i].follower == t
  }

  // ---- one pass ----

  /** Once no later edge moves a timeline, the rest of the pass leaves it alone. */
  lemma {:induction false} PassSuffix<T>(m: map<T, real>, dur: map<T, real>, edges: seq<Edge<T>>, n: nat, t: T)
    requires Known(m, dur, edges) && n <= |edges| && t in m
    requires forall j :: n <= j < |edges| ==> edges[j].follower != t
    ensures Pass(m, dur, edges)[t] == Pass(m, dur, edges[..n])[t]
    decreases |edges|
  {
    if n == |edges| {
      assert edges[..n] == edges;
    } else {
      var prior := edges[..|edges| - 1];
      PassSuffix(m, dur, prior, n, t);
      assert prior[..n] == edges[..n];
    }
  }

  /** A pass moves followers only. */
  lemma PassKeeps<T>(m: map<T, real>, dur: map<T, real>, edges: seq<Edge<T>>, t: T)
    requires Known(m, dur, edges) && t in m && !IsFollower(edges, t)
    ensures Pass(m, dur, edges)[t] == m[t]
  {
    PassSuffix(m, dur, edges, 0, t);
  }

  /** A follower ends the pass where its own edge put it, reading the leader at that moment. */
  lemma PassPlaces<T>(m: map<T, real>, dur: map<T, real>, edges: seq<Edge<T>>, i: nat)
    requires Known(m, dur, edges) && OneEdgeEach(edges) && i < |edges|
    ensures Pass(m, dur, edges)[edges[i].follower]
         == Pass(m, dur, edges[..i])[edges[i].leader] + dur[edges[i].leader] + edges[i].offset
  {
    PassSuffix(m, dur, edges, i + 1, edges[i].follower);
    assert edges[..i + 1][..i] == edges[..i];
  }

  /** With leaders first, one pass satisfies every edge at once. */
  lemma LeaderFirstSettles<T>(m: map<T, real>, dur: map<T, real>, edges: seq<Edge<T>>)
    requires Known(m, dur, edges) && OneEdgeEach(edges) && LeaderFirst(edges)
    ensures AllSatisfied(Pass(m, dur, edges), dur, edges)
  {
    forall i | 0 <= i < |edges|
      ensures Satisfied(Pass(m, dur, edges), dur, edges[i])
    {
      PassPlaces(m, dur, edges, i);
      PassSuffix(m, dur, edges, i, edges[i].leader);
    }
  }

  /** A pass over a placement changes nothing exactly when every edge is satisfied. */
  lemma {:induction false} FixedIffSatisfied<T>(m: map<T, real>, dur: map<T, real>, edges: seq<Edge<T>>)
    requires Known(m, dur, edges) && OneEdgeEach(edges)
    ensures Pass(m, dur, edges) == m <==> AllSatisfied(m, dur, edges)
  {
    if AllSatisfied(m, dur, edges) {
      SatisfiedIsFixed(m, dur, edges);
    }
    if Pass(m, dur, edges) == m {
      FixedPrefixes(m, dur, edges);
      forall i | 0 <= i < |edges|
        ensures Satisfied(m, dur, edges[i])
      {
        PassPlaces(m, dur, edges, i);
      }
    }
  }

  lemma {:induction false} SatisfiedIsFixed<T>(m: map<T, real>, dur: map<T, real>, edges: seq<Edge<T>>)
    requires Known(m, dur, edges) && AllSatisfied(m, dur, edges)
    ensures Pass(m, dur, edges) == m
    decreases |edges|
  {
    if edges != [] {
      var n := |edges| - 1;
      var prior := edges[..n];
      assert forall i :: 0 <= i < n ==> prior[i] == edges[i];
      SatisfiedIsFixed(m, dur, prior);
      assert Satisfied(m, dur, edges[n]);
    }
  }

  /** If the whole pass is the identity then so is every part of it. */
  lemma {:induction false} FixedPrefixes<T>(m: map<T, real>, dur: map<T, real>, edges: seq<Edge<T>>)
    requires Known(m, dur, edges) && OneEdgeEach(edges) && Pass(m, dur, edges) == m
    ensures forall i :: 0 <= i <= |edges| ==> Pass(m, dur, edges[..i]) == m
    decreases |edges|
  {
    if edges == [] {
      assert edges[..0] == edges;
    } else {
      var n := |edges| - 1;
      var prior := edges[..n];
      var last := edges[n].follower;
      PassKeeps(m, dur, prior, last) by {
        assert !IsFollower(prior, last);
      }
      assert Pass(m, dur, prior) == m;
      FixedPrefixes(m, dur, prior);
      forall i | 0 <= i <= |edges|
        ensures Pass(m, dur, edges[..i]) == m
      {
        if i < |edges| {
          assert prior[..i] == edges[..i];
        } else {
          assert edges[..i] == edges;
        }
      }
    }
  }

  // ---- exactly when a single pass is enough ----

  /** Two placements agree on everything ranked below r. */
  ghost predicate AgreeBelow<T>(m: map<T, real>, k: map<T, real>, rank: map<T, nat>, r: nat) {
    forall t :: t in rank && rank[t] < r && t in m && t in k ==> m[t] == k[t]
  }

  lemma {:induction false} PassAgreesBelow<T>(m: map<T, real>, k: map<T, real>, dur: map<T, real>,
                                              edges: seq<Edge<T>>, rank: map<T, nat>, r: nat)
    requires Known(m, dur, edges) && Known(k, dur, edges) && Ranked(edges, rank) && AgreeBelow(m, k, rank, r)
    ensures AgreeBelow(Pass(m, dur, edges), Pass(k, dur, edges), rank, r)
    decreases |edges|
  {
    if edges != [] {
      var n := |edges| - 1;
      var prior := edges[..n];
      assert forall i :: 0 <= i < n ==> prior[i] == edges[i];
      PassAgreesBelow(m, k, dur, prior, rank, r);
    }
  }

  lemma NotBefore<T>(edges: seq<Edge<T>>, i: nat, j: nat)
    requires OneEdgeEach(edges) && i <= j < |edges|
    ensures !IsFollower(edges[..i], edges[j].follower)
  {
  }

  /** The follower of an edge is placed by its leader's position at that moment. */
  lemma ReadsEarly<T>(m: map<T, real>, dur: map<T, real>, edges: seq<Edge<T>>, i: nat, j: nat)
    requires Known(m, dur, edges) && OneEdgeEach(edges)
    requires i <= j < |edges| && edges[i].leader == edges[j].follower
    ensures Pass(m, dur, edges)[edges[i].follower] == m[edges[i].leader] + dur[edges[i].leader] + edges[i].offset
  {
    PassPlaces(m, dur, edges, i);
    PassKeeps(m, dur, edges[..i], edges[i].leader) by {
      NotBefore(edges, i, j);
    }
  }

  /** Where a timeline ends up does not depend on where it started, if it follows. */
  lemma RankedPrefix<T>(edges: seq<Edge<T>>, rank: map<T, nat>, j: nat)
    requires Ranked(edges, rank) && j <= |edges|
    ensures Ranked(edges[..j], rank)
  {
    assert forall x :: 0 <= x < j ==> edges[..j][x] == edges[x];
  }

  lemma FollowerForgets<T>(m: map<T, real>, k: map<T, real>, dur: map<T, real>, edges: seq<Edge<T>>,
                           rank: map<T, nat>, j: nat)
    requires Known(m, dur, edges) && Known(k, dur, edges) && OneEdgeEach(edges) && Ranked(edges, rank)
    requires j < |edges| && AgreeBelow(m, k, rank, rank[edges[j].follower])
    ensures Pass(m, dur, edges)[edges[j].follower] == Pass(k, dur, edges)[edges[j].follower]
  {
    hide Pass;
    PassPlaces(m, dur, edges, j);
    PassPlaces(k, dur, edges, j);
    RankedPrefix(edges, rank, j);
    PassAgreesBelow(m, k, dur, edges[..j], rank, rank[edges[j].follower]);
  }

  /**
   * When a leader is moved by a later edge, two placements that differ in that
   * leader alone cannot both come out of one pass with the follower's edge satisfied.
   */
  lemma LateLeaderFails<T>(m: map<T, real>, k: map<T, real>, dur: map<T, real>, edges: seq<Edge<T>>,
                           rank: map<T, nat>, i: nat, j: nat)
    requires Known(m, dur, edges) && OneEdgeEach(edges) && Ranked(edges, rank)
    requires i <= j < |edges| && edges[i].leader == edges[j].follower
    requires k == m[edges[i].leader := m[edges[i].leader] + 1.0]
    ensures Known(k, dur, edges)
    ensures !(Satisfied(Pass(m, dur, edges), dur, edges[i]) && Satisfied(Pass(k, dur, edges), dur, edges[i]))
  {
    ReadsEarly(m, dur, edges, i, j);
    ReadsEarly(k, dur, edges, i, j);
    FollowerForgets(m, k, dur, edges, rank, j);
  }

  /** One pass satisfies every edge, wherever the timelines were placed. */
  ghost predicate SettlesAlways<T(!new)>(dur: map<T, real>, edges: seq<Edge<T>>) {
    forall m: map<T, real> :: Known(m, dur, edges) ==> AllSatisfied(Pass(m, dur, edges), dur, edges)
  }

  /** A second pass never changes what the first one made. */
  ghost predicate Idempotent<T(!new)>(dur: map<T, real>, edges: seq<Edge<T>>) {
    forall m: map<T, real> :: Known(m, dur, edges) ==>
      Pass(Pass(m, dur, edges), dur, edges) == Pass(m, dur, edges)
  }

  /** In an acyclic graph one pass always settles everything exactly when leaders come first. */
  lemma OnePassIffLeaderFirst<T(!new)>(m: map<T, real>, dur: map<T, real>, edges: seq<Edge<T>>, rank: map<T, nat>)
    requires Known(m, dur, edges) && OneEdgeEach(edges) && Ranked(edges, rank)
    ensures SettlesAlways(dur, edges) <==> LeaderFirst(edges)
  {
    hide Pass; hide Ranked; hide OneEdgeEach; hide Satisfied;
    if LeaderFirst(edges) {
      forall k: map<T, real> | Known(k, dur, edges)
        ensures AllSatisfied(Pass(k, dur, edges), dur, edges)
      {
        LeaderFirstSettles(k, dur, edges);
      }
    } else {
      var i, j :| 0 <= i <= j < |edges| && edges[i].leader == edges[j].follower;
      var k := m[edges[i].leader := m[edges[i].leader] + 1.0];
      LateLeaderFails(m, k, dur, edges, rank, i, j);
    }
  }

  /** Resolving is idempotent on every placement exactly when leaders come first. */
  lemma IdempotentIffLeaderFirst<T(!new)>(m: map<T, real>, dur: map<T, real>, edges: seq<Edge<T>>, rank: map<T, nat>)
    requires Known(m, dur, edges) && OneEdgeEach(edges) && Ranked(edges, rank)
    ensures Idempotent(dur, edges) <==> LeaderFirst(edges)
  {
    hide Pass; hide Ranked; hide OneEdgeEach; hide AllSatisfied; hide LeaderFirst;
    forall k: map<T, real> | Known(k, dur, edges)
      ensures Pass(Pass(k, dur, edges), dur, edges) == Pass(k, dur, edges)
              <==> AllSatisfied(Pass(k, dur, edges), dur, edges)
    {
      FixedIffSatisfied(Pass(k, dur, edges), dur, edges);
    }
    OnePassIffLeaderFirst(m, dur, edges, rank);
  }
}
