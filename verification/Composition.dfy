/** Timelines placed in time, moved in place by the composition's follow edges. */
module Composition {
  import opened Wrappers
  import opened Magnet
  import opened Settling

  const MAX_FOLLOWS: nat := 32

  /** Tempo is never edited once made; a tempo of zero beats per minute has no meaning. */
  datatype Tempo = Tempo(bpm: real, start: real)

  class Timeline {
    const tempo: Option<Tempo>
    const duration: real
    const beats: Option<real>
    var start: real
    var startBeats: Option<real>

    constructor (tempo: Option<Tempo>, start: real, startBeats: Option<real>, duration: real, beats: Option<real>)
      ensures this.tempo == tempo && this.start == start && this.startBeats == startBeats
      ensures this.duration == duration && this.beats == beats
    {
      this.tempo, this.start, this.startBeats, this.duration, this.beats := tempo, start, startBeats, duration, beats;
    }

    predicate Tempered() {
      tempo.Some? ==> tempo.value.bpm != 0.0
    }

    /** tlStart: seconds, through the tempo when the timeline is placed in beats. */
    function Start(): real
      requires Tempered()
      reads this
    {
      if startBeats.Some? && tempo.Some?
      then tempo.value.start + startBeats.value * 60.0 / tempo.value.bpm
      else start
    }

    /** tlDuration */
    function Duration(): real
      requires Tempered()
    {
      if beats.Some? && tempo.Some? then beats.value * 60.0 / tempo.value.bpm else duration
    }

    /** applyDelta: moves the start in whichever unit drives it. */
    method ApplyDelta(delta: real)
      requires Tempered()
      modifies this
      ensures Start() == old(Start()) + delta
      ensures startBeats.Some? <==> old(startBeats).Some?
      ensures if startBeats.Some? && tempo.Some? then start == old(start) else startBeats == old(startBeats)
    {
      if startBeats.Some? && tempo.Some? {
        BeatsForDelta(startBeats.value, delta, tempo.value.bpm);
        startBeats := Some(startBeats.value + delta / (60.0 / tempo.value.bpm));
      } else {
        start := start + delta;
      }
    }
  }

  /** Converting a shift to beats and back to seconds loses nothing. */
  lemma BeatsForDelta(beats: real, delta: real, bpm: real)
    requires bpm != 0.0
    ensures 60.0 / bpm != 0.0
    ensures (beats + delta / (60.0 / bpm)) * 60.0 / bpm == beats * 60.0 / bpm + delta
  {
    var beat := 60.0 / bpm;
    assert beat * bpm == 60.0;
    assert beat != 0.0;
    var shift := delta / beat;
    assert shift * beat == delta;
    assert shift * 60.0 == shift * (beat * bpm) == delta * bpm;
    assert (beats + shift) * 60.0 == beats * 60.0 + delta * bpm;
    assert (beats * 60.0 + delta * bpm) / bpm == beats * 60.0 / bpm + delta * bpm / bpm;
    assert delta * bpm / bpm == delta;
  }

  /** A start held in beats is that many beats after the tempo's start; any other is the plain field. */
  lemma StartLaw(t: Timeline)
    requires t.Tempered()
    ensures t.startBeats.Some? && t.tempo.Some? ==>
      (t.Start() - t.tempo.value.start) * t.tempo.value.bpm == t.startBeats.value * 60.0
    ensures t.startBeats.None? || t.tempo.None? ==> t.Start() == t.start
  {
    if t.startBeats.Some? && t.tempo.Some? {
      DivideBack(t.startBeats.value * 60.0, t.tempo.value.bpm);
    }
  }

  /** A duration held in beats lasts that many beats of the tempo; any other is the plain field. */
  lemma DurationLaw(t: Timeline)
    requires t.Tempered()
    ensures t.beats.Some? && t.tempo.Some? ==> t.Duration() * t.tempo.value.bpm == t.beats.value * 60.0
    ensures t.beats.None? || t.tempo.None? ==> t.Duration() == t.duration
  {
    if t.beats.Some? && t.tempo.Some? {
      DivideBack(t.beats.value * 60.0, t.tempo.value.bpm);
    }
  }

  lemma DivideBack(x: real, bpm: real)
    requires bpm != 0.0
    ensures x / bpm * bpm == x
  {
  }

  /** The follower stands where the leader ends, measured in the leader's own unit. */
  ghost predicate InPlace(e: Edge<Timeline>)
    requires e.follower.Tempered() && e.leader.Tempered()
    reads e.follower, e.leader
  {
    var gap := e.follower.Start() - e.leader.Start() - e.offset;
    if e.leader.beats.Some? && e.leader.tempo.Some?
    then gap * e.leader.tempo.value.bpm == e.leader.beats.value * 60.0
    else gap == e.leader.duration
  }

  ghost predicate AllInPlace(edges: seq<Edge<Timeline>>, scope: set<Timeline>)
    requires AllTempered(scope) && Within(edges, scope)
    reads scope
  {
    forall i :: 0 <= i < |edges| ==> InPlace(edges[i])
  }

  /** A placement that satisfies the follow equations has every follower in place. */
  lemma SatisfiedIsInPlace(edges: seq<Edge<Timeline>>, scope: set<Timeline>)
    requires AllTempered(scope) && Within(edges, scope)
    requires Known(Starts(scope), Durations(scope), edges) && AllSatisfied(Starts(scope), Durations(scope), edges)
    ensures AllInPlace(edges, scope)
  {
    hide Timeline.Start; hide Timeline.Duration;
    forall i | 0 <= i < |edges|
      ensures InPlace(edges[i])
    {
      DurationLaw(edges[i].leader);
      assert Satisfied(Starts(scope), Durations(scope), edges[i]);
    }
  }

  ghost predicate AllTempered(scope: set<Timeline>) {
    forall t :: t in scope ==> t.Tempered()
  }

  ghost function Starts(scope: set<Timeline>): map<Timeline, real>
    requires AllTempered(scope)
    reads scope
  {
    map t | t in scope :: t.Start()
  }

  ghost function Durations(scope: set<Timeline>): map<Timeline, real>
    requires AllTempered(scope)
  {
    map t | t in scope :: t.Duration()
  }

  lemma MapsAt(scope: set<Timeline>)
    requires AllTempered(scope)
    ensures Starts(scope).Keys == scope && Durations(scope).Keys == scope
    ensures forall x :: x in scope ==> Starts(scope)[x] == x.Start()
  {
  }

  lemma KnownIn(edges: seq<Edge<Timeline>>, scope: set<Timeline>)
    requires AllTempered(scope) && Within(edges, scope)
    ensures Known(Starts(scope), Durations(scope), edges)
  {
  }

  ghost predicate Within(edges: seq<Edge<Timeline>>, scope: set<Timeline>) {
    forall i :: 0 <= i < |edges| ==> edges[i].follower in scope && edges[i].leader in scope
  }

  /** The edges that do not bind t, in order. */
  ghost function Without<T>(edges: seq<Edge<T>>, t: T): seq<Edge<T>> {
    if edges == [] then []
    else if edges[0].follower == t then Without(edges[1..], t)
    else [edges[0]] + Without(edges[1..], t)
  }

  lemma {:induction false} WithoutCounts<T>(edges: seq<Edge<T>>, t: T, e: Edge<T>)
    ensures multiset(Without(edges, t))[e] == if e.follower == t then 0 else multiset(edges)[e]
    decreases |edges|
  {
    if edges != [] {
      assert edges == [edges[0]] + edges[1..];
      WithoutCounts(edges[1..], t, e);
    }
  }

  lemma {:induction false} WithoutAppend<T>(a: seq<Edge<T>>, b: seq<Edge<T>>, t: T)
    ensures Without(a + b, t) == Without(a, t) + Without(b, t)
    decreases |a|
  {
    if a == [] {
      assert a + b == b;
    } else {
      assert (a + b)[1..] == a[1..] + b;
      WithoutAppend(a[1..], b, t);
    }
  }

  lemma WithoutOne<T>(e: Edge<T>, t: T)
    requires e.follower == t
    ensures Without([e], t) == []
  {
    assert [e][1..] == [];
  }

  lemma MoveLastKeeps<T>(front: seq<Edge<T>>, e: Edge<T>, mid: seq<Edge<T>>, last: Edge<T>, t: T)
    requires e.follower == t
    ensures multiset(Without(front + ([last] + mid), t)) == multiset(Without(front + ([e] + (mid + [last])), t))
  {
    hide Without;
    WithoutOne(e, t);
    WithoutAppend(front, [e] + (mid + [last]), t);
    WithoutAppend([e], mid + [last], t);
    WithoutAppend(mid, [last], t);
    WithoutAppend(front, [last] + mid, t);
    WithoutAppend([last], mid, t);
  }

  lemma SwapRemoveSplits<T>(s: seq<T>, i: nat)
    requires i < |s| - 1
    ensures var n := |s| - 1;
            s == s[..i] + ([s[i]] + (s[i + 1..n] + [s[n]])) &&
            s[i := s[n]][..n] == s[..i] + ([s[n]] + s[i + 1..n])
  {
  }

  /** Swap-removing an edge that binds t keeps the edges that do not. */
  lemma SwapRemoveKeeps<T>(edges: seq<Edge<T>>, i: nat, t: T)
    requires i < |edges| && edges[i].follower == t
    ensures var n := |edges| - 1;
            multiset(Without(edges[i := edges[n]][..n], t)) == multiset(Without(edges, t))
  {
    hide Without;
    var n := |edges| - 1;
    var rest := edges[i := edges[n]][..n];
    if i == n {
      assert edges == rest + [edges[n]];
      WithoutOne(edges[n], t);
      WithoutAppend(rest, [edges[n]], t);
    } else {
      SwapRemoveSplits(edges, i);
      MoveLastKeeps(edges[..i], edges[i], edges[i + 1..n], edges[n], t);
    }
  }

  lemma {:induction false} WithoutNone<T>(edges: seq<Edge<T>>, t: T)
    requires forall i :: 0 <= i < |edges| ==> edges[i].follower != t
    ensures Without(edges, t) == edges
    decreases |edges|
  {
    if edges != [] {
      WithoutNone(edges[1..], t);
    }
  }

  class Comp {
    var follows: seq<Edge<Timeline>>

    constructor ()
      ensures follows == []
    {
      follows := [];
    }

    ghost function Followers(): set<Timeline>
      reads this
    {
      set i | 0 <= i < |follows| :: follows[i].follower
    }

    /** comp.resolve: one pass of delta applications, in place. */
    method Resolve(ghost scope: set<Timeline>)
      requires Within(follows, scope) && AllTempered(scope)
      modifies Followers()
      ensures Starts(scope) == Pass(old(Starts(scope)), Durations(scope), follows)
      ensures OneEdgeEach(follows) && LeaderFirst(follows) ==> AllInPlace(follows, scope)
    {
      hide Timeline.Start; hide Timeline.Duration; hide OneEdgeEach; hide LeaderFirst; hide AllSatisfied;
      hide AllInPlace;
      ghost var m, dur := Starts(scope), Durations(scope);
      var i := 0;
      while i < |follows|
        invariant 0 <= i <= |follows|
        invariant Starts(scope) == Pass(m, dur, follows[..i])
      {
        var f := follows[i];
        assert f.follower in Followers();
        SettleEdge(f, scope);
        i := i + 1;
        assert follows[..i][..i - 1] == follows[..i - 1];
      }
      assert follows[..i] == follows;
      KnownIn(follows, scope);
      if OneEdgeEach(follows) && LeaderFirst(follows) {
        LeaderFirstSettles(m, dur, follows);
        SatisfiedIsInPlace(follows, scope);
      }
    }

    /** One edge of the pass. */
    method SettleEdge(f: Edge<Timeline>, ghost scope: set<Timeline>)
      requires AllTempered(scope) && f.follower in scope && f.leader in scope
      modifies f.follower
      ensures Starts(scope) == Settle(old(Starts(scope)), Durations(scope), f)
    {
      hide Timeline.Start; hide Timeline.Duration;
      var desired := f.leader.Start() + f.leader.Duration() + f.offset;
      f.follower.ApplyDelta(desired - f.follower.Start());
      assert Starts(scope) == old(Starts(scope))[f.follower := desired];
    }

    /** comp.follow: past the fixed capacity the edge is silently not recorded. */
    method Follow(follower: Timeline, leader: Timeline, offset: real)
      modifies this
      ensures follows == if |old(follows)| < 32
                         then old(follows) + [Edge(follower, leader, offset)] else old(follows)
    {
      if |follows| < MAX_FOLLOWS {
        follows := follows + [Edge(follower, leader, offset)];
      }
    }

    /** timeline.release: swap-removes every edge that binds the timeline. */
    method Release(tl: Timeline)
      modifies this
      ensures multiset(follows) == multiset(Without(old(follows), tl))
      ensures forall i :: 0 <= i < |follows| ==> follows[i].follower != tl
    {
      var i := 0;
      while i < |follows|
        invariant 0 <= i <= |follows|
        invariant forall k :: 0 <= k < i ==> follows[k].follower != tl
        invariant multiset(Without(follows, tl)) == multiset(Without(old(follows), tl))
        decreases |follows| - i
      {
        if follows[i].follower == tl {
          SwapRemoveKeeps(follows, i, tl);
          follows := follows[i := follows[|follows| - 1]][..|follows| - 1];
        } else {
          i := i + 1;
        }
      }
      WithoutNone(follows, tl);
    }

    /** Resolving as often as there are edges settles whatever order they are in. */
    method ResolveAll(ghost scope: set<Timeline>, ghost rank: map<Timeline, nat>)
      requires Within(follows, scope) && AllTempered(scope)
      requires OneEdgeEach(follows) && Ranked(follows, rank)
      modifies Followers()
      ensures Starts(scope) == Passes(old(Starts(scope)), Durations(scope), follows, |follows|)
      ensures AllSatisfied(Starts(scope), Durations(scope), follows) && AllInPlace(follows, scope)
    {
      hide Timeline.Start; hide Timeline.Duration; hide Pass; hide AllSatisfied; hide AllInPlace;
      ghost var m, dur := Starts(scope), Durations(scope);
      var n := 0;
      while n < |follows|
        invariant 0 <= n <= |follows|
        invariant Starts(scope) == Passes(m, dur, follows, n)
      {
        Resolve(scope);
        n := n + 1;
      }
      PassesSettle(m, dur, follows, rank, |follows|);
      SatisfiedIsInPlace(follows, scope);
    }

    /** Dragging a free timeline, then one resolve over leaders-first edges. */
    method ShiftAndResolve(tl: Timeline, delta: real, ghost scope: set<Timeline>, ghost rank: map<Timeline, nat>)
      requires Within(follows, scope) && AllTempered(scope) && tl in scope
      requires OneEdgeEach(follows) && Ranked(follows, rank) && LeaderFirst(follows) && !IsFollower(follows, tl)
      requires AllSatisfied(Starts(scope), Durations(scope), follows)
      modifies tl, Followers()
      ensures forall x :: x in scope ==>
                x.Start() == old(x.Start()) + (if x == tl || Settling.Follows(follows, x, tl) then delta else 0.0)
      ensures AllSatisfied(Starts(scope), Durations(scope), follows)
    {
      hide Timeline.Start; hide Timeline.Duration; hide Pass; hide Settling.Follows; hide LeaderFirst; hide Ranked;
      hide Starts; hide Durations; hide IsFollower; hide OneEdgeEach; hide AllSatisfied;
      ghost var m, dur := Starts(scope), Durations(scope);
      MapsAt(scope);
      KnownIn(follows, scope);
      MovesRigidly(m, dur, follows, rank, tl, delta);
      Shift(tl, delta, scope);
      Resolve(scope);
      MapsAt(scope);
    }

    /** timeline.shift: one start moves, in the unit it is held in. */
    method Shift(tl: Timeline, delta: real, ghost scope: set<Timeline>)
      requires AllTempered(scope) && tl in scope
      modifies tl
      ensures Starts(scope) == old(Starts(scope))[tl := old(tl.Start()) + delta]
    {
      hide Timeline.Start; hide Timeline.Duration;
      tl.ApplyDelta(delta);
      assert Starts(scope) == old(Starts(scope))[tl := old(tl.Start()) + delta];
    }
  }

  /** A drag and one pass over leaders-first edges, on the starts alone. */
  lemma MovesRigidly<T>(m: map<T, real>, dur: map<T, real>, edges: seq<Edge<T>>, rank: map<T, nat>, t: T, delta: real)
    requires Known(m, dur, edges) && OneEdgeEach(edges) && Ranked(edges, rank) && LeaderFirst(edges)
      && AllSatisfied(m, dur, edges)
    requires t in m && !IsFollower(edges, t)
    ensures var k := Pass(m[t := m[t] + delta], dur, edges);
      AllSatisfied(k, dur, edges)
      && forall x :: x in m ==> k[x] == m[x] + (if x == t || Settling.Follows(edges, x, t) then delta else 0.0)
  {
    hide Settling.Follows; hide LeaderFirst; hide Ranked; hide Pass;
    var shifted := m[t := m[t] + delta];
    RigidTranslation(m, dur, edges, rank, t, delta, 1);
    LeaderFirstSettles(shifted, dur, edges);
    assert Passes(shifted, dur, edges, 0) == shifted;
    assert Passes(shifted, dur, edges, 1) == Pass(shifted, dur, edges);
  }

  /** Releasing keeps the graph acyclic with one edge per follower, so ResolveAll still settles it. */
  lemma ReleaseKeepsGraph<T>(edges: seq<Edge<T>>, rest: seq<Edge<T>>, t: T, rank: map<T, nat>)
    requires OneEdgeEach(edges) && Ranked(edges, rank)
    requires multiset(rest) == multiset(Without(edges, t))
    ensures OneEdgeEach(rest) && Ranked(rest, rank)
  {
    forall i | 0 <= i < |rest|
      ensures rest[i] in edges
    {
      assert rest[i] in multiset(rest);
      WithoutCounts(edges, t, rest[i]);
    }
    forall i, j | 0 <= i < j < |rest|
      ensures rest[i].follower != rest[j].follower
    {
      if rest[i].follower == rest[j].follower {
        SingleCopy(edges, rest[i]);
        SingleEdge(edges, rest[i], rest[j]);
        WithoutCounts(edges, t, rest[i]);
        TwoCopies(rest, i, j);
      }
    }
  }

  lemma SingleEdge<T>(edges: seq<Edge<T>>, d: Edge<T>, e: Edge<T>)
    requires OneEdgeEach(edges) && d in edges && e in edges && d.follower == e.follower
    ensures d == e
  {
  }

  lemma {:induction false} SingleCopy<T>(edges: seq<Edge<T>>, e: Edge<T>)
    requires OneEdgeEach(edges)
    ensures multiset(edges)[e] <= 1
    decreases |edges|
  {
    if edges != [] {
      assert edges == [edges[0]] + edges[1..];
      SingleCopy(edges[1..], e);
      if edges[0] == e {
        assert e !in edges[1..];
      }
    }
  }

  lemma TwoCopies<T>(s: seq<T>, i: nat, j: nat)
    requires i < j < |s| && s[i] == s[j]
    ensures multiset(s)[s[i]] >= 2
  {
    assert s == s[..i] + [s[i]] + s[i + 1..j] + [s[j]] + s[j + 1..];
  }

  /** Swap-removal can put a follower's edge before its leader's: one pass is then not enough. */
  lemma ReleaseBreaksOrder()
    ensures var edges := [Edge(3, 0, 0.0), Edge(1, 0, 0.0), Edge(2, 1, 0.0)];
            var rest := edges[0 := edges[2]][..2];
            var m := map[0 := 0.0, 1 := 9.0, 2 := 9.0];
            var dur := map[0 := 1.0, 1 := 1.0, 2 := 1.0];
            LeaderFirst(edges) && multiset(rest) == multiset(Without(edges, 3)) && !LeaderFirst(rest) &&
            Known(m, dur, rest) && !AllSatisfied(Pass(m, dur, rest), dur, rest)
  {
    var edges := [Edge(3, 0, 0.0), Edge(1, 0, 0.0), Edge(2, 1, 0.0)];
    var rest := edges[0 := edges[2]][..2];
    SwapRemoveKeeps(edges, 0, 3);
    WithoutNone(rest, 3);
    assert rest == [Edge(2, 1, 0.0), Edge(1, 0, 0.0)];
    LateLeaderLags(rest, map[0 := 0.0, 1 := 9.0, 2 := 9.0], map[0 := 1.0, 1 := 1.0, 2 := 1.0]);
    assert rest[0].leader == rest[1].follower;
  }

  /** The second follower reads its leader before the leader moves. */
  lemma LateLeaderLags(rest: seq<Edge<int>>, m: map<int, real>, dur: map<int, real>)
    requires rest == [Edge(2, 1, 0.0), Edge(1, 0, 0.0)]
    requires m == map[0 := 0.0, 1 := 9.0, 2 := 9.0] && dur == map[0 := 1.0, 1 := 1.0, 2 := 1.0]
    ensures Known(m, dur, rest) && !AllSatisfied(Pass(m, dur, rest), dur, rest)
  {
    assert rest[..1] == [Edge(2, 1, 0.0)] && rest[..1][..0] == [];
    assert Pass(m, dur, rest[..1])[2] == 10.0;
    assert !Satisfied(Pass(m, dur, rest), dur, rest[0]);
  }
}
