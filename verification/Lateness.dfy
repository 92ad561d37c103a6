/** Exactly how many passes settle every placement: it depends on the order the edges are stored in. */
module Lateness {
  import opened Magnet
  import opened Settling

  /** The edge that moves t, or the number of edges when none does. */
  ghost function OwnEdge<T>(edges: seq<Edge<T>>, t: T): (j: nat)
    ensures j <= |edges|
    ensures j < |edges| ==> edges[j].follower == t
    ensures j == |edges| <==> !IsFollower(edges, t)
  {
    if i: nat :| i < |edges| && edges[i].follower == t then i else |edges|
  }

  /**
   * How many edges of the chain of leaders above edge i are stored before their
   * leader's own edge: each of them reads a start the same pass has not moved yet.
   */
  ghost function Late<T>(edges: seq<Edge<T>>, rank: map<T, nat>, i: nat): nat
    requires Ranked(edges, rank) && i < |edges|
    decreases rank[edges[i].follower]
  {
    var j := OwnEdge(edges, edges[i].leader);
    if j == |edges| then 0 else Late(edges, rank, j) + (if i < j then 1 else 0)
  }

  lemma OwnIsOnly<T>(edges: seq<Edge<T>>, j: nat, t: T)
    requires OneEdgeEach(edges) && j < |edges| && edges[j].follower == t
    ensures OwnEdge(edges, t) == j
  {
    assert IsFollower(edges, t);
  }

  lemma LateStep<T>(edges: seq<Edge<T>>, rank: map<T, nat>, i: nat)
    requires Ranked(edges, rank) && i < |edges|
    ensures edges[i].follower in rank
    ensures var j := OwnEdge(edges, edges[i].leader);
      (j == |edges| ==> Late(edges, rank, i) == 0)
      && (j < |edges| ==>
        j != i && edges[j].follower in rank && rank[edges[j].follower] < rank[edges[i].follower]
        && Late(edges, rank, i) == Late(edges, rank, j) + (if i < j then 1 else 0))
  {
    var j := OwnEdge(edges, edges[i].leader);
    assert rank[edges[i].leader] < rank[edges[i].follower];
  }

  /** What a pass reads for edge i: its leader as this pass left it, or as the pass before did. */
  lemma PassReads<T>(m: map<T, real>, dur: map<T, real>, edges: seq<Edge<T>>, rank: map<T, nat>, i: nat)
    requires Known(m, dur, edges) && OneEdgeEach(edges) && Ranked(edges, rank) && i < |edges|
    ensures var leader := edges[i].leader; var k := Pass(m, dur, edges);
      k[edges[i].follower]
      == (if OwnEdge(edges, leader) < i then k[leader] else m[leader]) + dur[leader] + edges[i].offset
  {
    hide Pass;
    var leader := edges[i].leader;
    var j := OwnEdge(edges, leader);
    PassPlaces(m, dur, edges, i);
    KnownPrefix(m, dur, edges, i);
    if j < i {
      forall x | i <= x < |edges|
        ensures edges[x].follower != leader
      {
        assert edges[x].follower != edges[j].follower;
      }
      PassSuffix(m, dur, edges, i, leader);
    } else {
      NotInPrefix(edges, i, leader);
      PassKeeps(m, dur, edges[..i], leader);
    }
  }

  lemma KnownPrefix<T>(m: map<T, real>, dur: map<T, real>, edges: seq<Edge<T>>, i: nat)
    requires Known(m, dur, edges) && i <= |edges|
    ensures Known(m, dur, edges[..i])
  {
  }

  lemma NotInPrefix<T>(edges: seq<Edge<T>>, i: nat, t: T)
    requires OneEdgeEach(edges) && i <= |edges| && i <= OwnEdge(edges, t)
    ensures !IsFollower(edges[..i], t)
  {
    forall x | 0 <= x < i
      ensures edges[..i][x].follower != t
    {
      if edges[x].follower == t {
        OwnIsOnly(edges, x, t);
      }
    }
  }

  /** Two placements that differ by d on every follower and nowhere else. */
  ghost predicate ApartBy<T>(m: map<T, real>, k: map<T, real>, edges: seq<Edge<T>>, d: real) {
    m.Keys == k.Keys && forall t :: t in m ==> k[t] == if IsFollower(edges, t) then m[t] + d else m[t]
  }

  /**
   * After n passes a follower has forgotten where the followers started exactly when
   * fewer than n edges of its chain are late; until then it is off by as much as they.
   */
  lemma {:induction false} LateDecides<T>(m: map<T, real>, k: map<T, real>, dur: map<T, real>, edges: seq<Edge<T>>,
                                          rank: map<T, nat>, d: real, n: nat, i: nat)
    requires Known(m, dur, edges) && Known(k, dur, edges) && OneEdgeEach(edges) && Ranked(edges, rank)
    requires ApartBy(m, k, edges, d) && i < |edges|
    ensures var t := edges[i].follower;
      Passes(k, dur, edges, n)[t] == Passes(m, dur, edges, n)[t] + (if Late(edges, rank, i) < n then 0.0 else d)
    decreases rank[edges[i].follower], n
  {
    hide Pass; hide Passes; hide OneEdgeEach; hide Late; hide Ranked; hide ApartBy; hide IsFollower;
    LateStep(edges, rank, i);
    if n == 0 {
      ApartAtFirst(m, k, dur, edges, d, i);
    } else {
      var leader := edges[i].leader;
      var j := OwnEdge(edges, leader);
      PassesRead(m, dur, edges, rank, n, i);
      PassesRead(k, dur, edges, rank, n, i);
      if j == |edges| {
        ApartFrees(m, k, edges, d);
        FreesAgree(m, k, dur, edges, n - 1, leader);
      } else {
        LateDecides(m, k, dur, edges, rank, d, if j < i then n else n - 1, j);
      }
    }
  }

  lemma ApartAtFirst<T>(m: map<T, real>, k: map<T, real>, dur: map<T, real>, edges: seq<Edge<T>>, d: real, i: nat)
    requires Known(m, dur, edges) && Known(k, dur, edges) && ApartBy(m, k, edges, d) && i < |edges|
    ensures Passes(k, dur, edges, 0)[edges[i].follower] == Passes(m, dur, edges, 0)[edges[i].follower] + d
  {
    assert IsFollower(edges, edges[i].follower);
  }

  lemma ApartFrees<T>(m: map<T, real>, k: map<T, real>, edges: seq<Edge<T>>, d: real)
    requires ApartBy(m, k, edges, d)
    ensures SameFrees(m, k, edges)
  {
  }

  ghost predicate SameFrees<T>(m: map<T, real>, k: map<T, real>, edges: seq<Edge<T>>) {
    m.Keys == k.Keys && forall t :: t in m && !IsFollower(edges, t) ==> m[t] == k[t]
  }

  lemma FreesAgree<T>(m: map<T, real>, k: map<T, real>, dur: map<T, real>, edges: seq<Edge<T>>, n: nat, t: T)
    requires Known(m, dur, edges) && Known(k, dur, edges) && SameFrees(m, k, edges) && t in m && !IsFollower(edges, t)
    ensures Passes(m, dur, edges, n)[t] == Passes(k, dur, edges, n)[t]
  {
    hide Passes;
    PassesKeep(m, dur, edges, n, t);
    PassesKeep(k, dur, edges, n, t);
  }

  /** What n passes make of a follower, from its leader. */
  lemma PassesRead<T>(m: map<T, real>, dur: map<T, real>, edges: seq<Edge<T>>, rank: map<T, nat>, n: nat, i: nat)
    requires Known(m, dur, edges) && OneEdgeEach(edges) && Ranked(edges, rank) && i < |edges| && n > 0
    ensures var leader := edges[i].leader;
      Passes(m, dur, edges, n)[edges[i].follower]
      == Passes(m, dur, edges, if OwnEdge(edges, leader) < i then n else n - 1)[leader] + dur[leader] + edges[i].offset
  {
    hide Pass; hide Ranked; hide OneEdgeEach;
    PassReads(Passes(m, dur, edges, n - 1), dur, edges, rank, i);
  }

  /** The same for placements that agree on the free timelines and differ in any way elsewhere. */
  lemma {:induction false} LateForgets<T>(m: map<T, real>, k: map<T, real>, dur: map<T, real>, edges: seq<Edge<T>>,
                                          rank: map<T, nat>, n: nat, i: nat)
    requires Known(m, dur, edges) && Known(k, dur, edges) && OneEdgeEach(edges) && Ranked(edges, rank)
    requires SameFrees(m, k, edges) && i < |edges| && Late(edges, rank, i) < n
    ensures Passes(k, dur, edges, n)[edges[i].follower] == Passes(m, dur, edges, n)[edges[i].follower]
    decreases rank[edges[i].follower], n
  {
    hide Pass; hide Passes; hide OneEdgeEach; hide Late; hide Ranked; hide SameFrees; hide IsFollower;
    var leader := edges[i].leader;
    var j := OwnEdge(edges, leader);
    LateStep(edges, rank, i);
    PassesRead(m, dur, edges, rank, n, i);
    PassesRead(k, dur, edges, rank, n, i);
    if j == |edges| {
      FreesAgree(m, k, dur, edges, n - 1, leader);
    } else {
      LateForgets(m, k, dur, edges, rank, if j < i then n else n - 1, j);
    }
  }

  /** n passes settle every placement. */
  ghost predicate SettledIn<T(!new)>(dur: map<T, real>, edges: seq<Edge<T>>, n: nat) {
    forall m: map<T, real> :: Known(m, dur, edges) ==> AllSatisfied(Passes(m, dur, edges, n), dur, edges)
  }

  ghost predicate AllLateBelow<T>(edges: seq<Edge<T>>, rank: map<T, nat>, n: nat)
    requires Ranked(edges, rank)
  {
    forall i :: 0 <= i < |edges| ==> Late(edges, rank, i) < n
  }

  /**
   * The exact number: n passes settle every placement of an acyclic graph with one
   * edge per follower if and only if every chain has fewer than n late edges.
   */
  lemma ExactPasses<T(!new)>(m0: map<T, real>, dur: map<T, real>, edges: seq<Edge<T>>, rank: map<T, nat>, n: nat)
    requires Known(m0, dur, edges) && OneEdgeEach(edges) && Ranked(edges, rank)
    ensures SettledIn(dur, edges, n) <==> AllLateBelow(edges, rank, n)
  {
    hide Passes; hide Pass; hide OneEdgeEach; hide Ranked; hide AllSatisfied; hide Late;
    if AllLateBelow(edges, rank, n) {
      forall m: map<T, real> | Known(m, dur, edges)
        ensures AllSatisfied(Passes(m, dur, edges, n), dur, edges)
      {
        EnoughPasses(m, dur, edges, rank, n);
      }
    }
    if SettledIn(dur, edges, n) {
      forall i | 0 <= i < |edges|
        ensures Late(edges, rank, i) < n
      {
        NoFewer(m0, dur, edges, rank, n, i);
      }
    }
  }

  lemma EnoughPasses<T(!new)>(m: map<T, real>, dur: map<T, real>, edges: seq<Edge<T>>, rank: map<T, nat>, n: nat)
    requires Known(m, dur, edges) && OneEdgeEach(edges) && Ranked(edges, rank) && AllLateBelow(edges, rank, n)
    ensures AllSatisfied(Passes(m, dur, edges, n), dur, edges)
  {
    hide Passes; hide Pass; hide OneEdgeEach; hide Ranked; hide Known; hide AllSatisfied; hide Late;
    var k := Passes(m, dur, edges, |edges|);
    PassesSettle(m, dur, edges, rank, |edges|);
    KnownAfter(m, k, dur, edges);
    StaysSettled(k, dur, edges, n);
    forall t | t in m
      ensures Passes(m, dur, edges, n)[t] == k[t]
    {
      if !IsFollower(edges, t) {
        PassesKeep(m, dur, edges, n, t);
        PassesKeep(m, dur, edges, |edges|, t);
      } else {
        FreesKept(m, dur, edges, |edges|);
        assert SameFrees(m, k, edges);
        LateForgets(m, k, dur, edges, rank, n, OwnEdge(edges, t));
      }
    }
    assert Passes(m, dur, edges, n) == k;
  }

  lemma KnownAfter<T>(m: map<T, real>, k: map<T, real>, dur: map<T, real>, edges: seq<Edge<T>>)
    requires Known(m, dur, edges) && k.Keys == m.Keys
    ensures Known(k, dur, edges)
  {
  }

  lemma FreesKept<T(!new)>(m: map<T, real>, dur: map<T, real>, edges: seq<Edge<T>>, n: nat)
    requires Known(m, dur, edges)
    ensures forall t :: t in m && !IsFollower(edges, t) ==> m[t] == Passes(m, dur, edges, n)[t]
  {
    forall t | t in m && !IsFollower(edges, t)
      ensures m[t] == Passes(m, dur, edges, n)[t]
    {
      PassesKeep(m, dur, edges, n, t);
    }
  }

  lemma {:induction false} StaysSettled<T>(k: map<T, real>, dur: map<T, real>, edges: seq<Edge<T>>, n: nat)
    requires Known(k, dur, edges) && AllSatisfied(k, dur, edges)
    ensures Passes(k, dur, edges, n) == k
    decreases n
  {
    if n > 0 {
      StaysSettled(k, dur, edges, n - 1);
      SatisfiedIsFixed(k, dur, edges);
    }
  }

  /** With n late edges above it or more, a follower ends off by one when every follower starts off by one. */
  lemma NoFewer<T(!new)>(m: map<T, real>, dur: map<T, real>, edges: seq<Edge<T>>, rank: map<T, nat>, n: nat, i: nat)
    requires Known(m, dur, edges) && OneEdgeEach(edges) && Ranked(edges, rank) && i < |edges|
    requires SettledIn(dur, edges, n)
    ensures Late(edges, rank, i) < n
  {
    hide Passes; hide Pass; hide OneEdgeEach; hide Ranked; hide AllSatisfied; hide Late;
    var k := map t | t in m :: if IsFollower(edges, t) then m[t] + 1.0 else m[t];
    KnownAfter(m, k, dur, edges);
    LateDecides(m, k, dur, edges, rank, 1.0, n, i);
    var a, b := Passes(m, dur, edges, n), Passes(k, dur, edges, n);
    KnownAfter(m, a, dur, edges);
    KnownAfter(m, b, dur, edges);
    FreesKept(m, dur, edges, n);
    FreesKept(k, dur, edges, n);
    SolutionUnique(a, b, dur, edges, rank);
  }

  /** Leaders first is the case of no late edge at all. */
  lemma {:induction false} LeaderFirstIsNeverLate<T>(edges: seq<Edge<T>>, rank: map<T, nat>)
    requires OneEdgeEach(edges) && Ranked(edges, rank)
    ensures LeaderFirst(edges) <==> AllLateBelow(edges, rank, 1)
  {
    if LeaderFirst(edges) {
      forall i | 0 <= i < |edges|
        ensures Late(edges, rank, i) < 1
      {
        NeverLate(edges, rank, i);
      }
    }
    if AllLateBelow(edges, rank, 1) {
      forall i, j | 0 <= i <= j < |edges|
        ensures edges[i].leader != edges[j].follower
      {
        assert rank[edges[i].leader] < rank[edges[i].follower] && Late(edges, rank, i) < 1;
        if edges[i].leader == edges[j].follower {
          OwnIsOnly(edges, j, edges[i].leader);
        }
      }
    }
  }

  lemma {:induction false} NeverLate<T>(edges: seq<Edge<T>>, rank: map<T, nat>, i: nat)
    requires OneEdgeEach(edges) && Ranked(edges, rank) && LeaderFirst(edges) && i < |edges|
    ensures Late(edges, rank, i) == 0
    decreases rank[edges[i].follower]
  {
    var j := OwnEdge(edges, edges[i].leader);
    if j < |edges| {
      assert j < i;
      NeverLate(edges, rank, j);
    }
  }
}
