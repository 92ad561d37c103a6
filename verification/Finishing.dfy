/** Which transfers finish: those the library reports done, each once, and no others. */
module Finishing {
  import opened Wrappers
  import opened BatchState
  import opened Firings
  import opened Passes

  /** How often the finished arm was called for one transfer. */
  function TimesFinished(log: seq<Firing>, i: nat): nat {
    if log == [] then 0
    else
      var last := log[|log| - 1];
      TimesFinished(log[..|log| - 1], i) + (if last.Finished? && last.response.index == i then 1 else 0)
  }

  /** All the handles the passes report done. */
  function AllDone(pumps: seq<Pump>): seq<nat> {
    if pumps == [] then [] else AllDone(pumps[..|pumps| - 1]) + pumps[|pumps| - 1].done
  }

  predicate Named(s: Slot, done: seq<nat>) {
    s.easy.Some? && s.easy.value in done
  }

  /** Only live slots have a handle, and no two have the same. */
  ghost predicate OwnHandles(slots: seq<Slot>) {
    && (forall i :: 0 <= i < |slots| && slots[i].easy.Some? ==> slots[i].live)
    && forall i, j :: 0 <= i < j < |slots| && slots[i].easy.Some? ==> slots[i].easy != slots[j].easy
  }

  /**
   * A slot whose handle is reported done fires its response, once more than before,
   * gives its handle away and is not live any more; any other slot fires none and
   * keeps what it has.
   */
  predicate CompletesAt(s: Slot, before: seq<Firing>, done: seq<nat>, r: Slot, after: seq<Firing>, i: nat) {
    && TimesFinished(after, i) == TimesFinished(before, i) + (if Named(s, done) then 1 else 0)
    && r.easy == (if Named(s, done) then None else s.easy)
    && (r.live <==> s.live && !Named(s, done))
  }

  ghost predicate Completes(s: Snap, done: seq<nat>, r: Snap) {
    && |r.slots| == |s.slots|
    && forall i :: 0 <= i < |s.slots| ==> CompletesAt(s.slots[i], s.log, done, r.slots[i], r.log, i)
  }

  // ---- counting ----

  lemma {:induction false} FinishedIsTimes(log: seq<Firing>, i: nat)
    ensures FinishedBody(log, i).Some? <==> TimesFinished(log, i) > 0
    decreases |log|
  {
    if log != [] {
      FinishedIsTimes(log[..|log| - 1], i);
    }
  }

  lemma TimesFiring(log: seq<Firing>, f: Firing, i: nat)
    ensures TimesFinished(log + [f], i)
         == TimesFinished(log, i) + if f.Finished? && f.response.index == i then 1 else 0
  {
    assert (log + [f])[..|log|] == log;
  }

  lemma {:induction false} DoneIsNamed(pumps: seq<Pump>, h: nat)
    ensures h in AllDone(pumps) <==> exists k :: 0 <= k < |pumps| && h in pumps[k].done
    decreases |pumps|
  {
    if pumps != [] {
      DoneIsNamed(pumps[..|pumps| - 1], h);
    }
  }

  // ---- one step after another ----

  lemma CompletesThen(s: Snap, a: seq<nat>, t: Snap, b: seq<nat>, r: Snap)
    requires Completes(s, a, t) && Completes(t, b, r)
    ensures Completes(s, a + b, r)
  {
    hide TimesFinished;
    forall i | 0 <= i < |s.slots|
      ensures CompletesAt(s.slots[i], s.log, a + b, r.slots[i], r.log, i)
    {
      assert CompletesAt(s.slots[i], s.log, a, t.slots[i], t.log, i);
      assert CompletesAt(t.slots[i], t.log, b, r.slots[i], r.log, i);
    }
  }

  lemma QuietThen(s: Snap, t: Snap, done: seq<nat>, r: Snap)
    requires Completes(s, [], t) && Completes(t, done, r)
    ensures Completes(s, done, r)
  {
    hide Completes;
    CompletesThen(s, [], t, done, r);
    assert [] + done == done;
  }

  lemma CompletesKeepsOwn(s: Snap, done: seq<nat>, r: Snap)
    requires Completes(s, done, r) && OwnHandles(s.slots)
    ensures OwnHandles(r.slots)
  {
    hide TimesFinished;
    forall i | 0 <= i < |s.slots|
      ensures r.slots[i].easy.Some? ==> r.slots[i].easy == s.slots[i].easy && r.slots[i].live
    {
      assert CompletesAt(s.slots[i], s.log, done, r.slots[i], r.log, i);
    }
  }

  lemma CompletesSame(s: Snap)
    ensures Completes(s, [], s)
  {
  }

  // ---- the steps of a pass ----

  lemma HolderIs(slots: seq<Slot>, h: nat, i: nat)
    requires OwnHandles(slots) && i <= |slots|
    ensures HolderFrom(slots, h, i).None? ==> forall j :: i <= j < |slots| ==> slots[j].easy != Some(h)
    decreases |slots| - i
  {
    if i < |slots| {
      HolderIs(slots, h, i + 1);
    }
  }

  /** harvest completes the slot of the handle it is given. */
  lemma FinishesCompletes(s: Snap, h: nat)
    requires OwnHandles(s.slots)
    ensures Completes(s, [h], Finishes(s, h))
  {
    hide TimesFinished;
    var r := Finishes(s, h);
    HolderIs(s.slots, h, 0);
    forall i | 0 <= i < |s.slots|
      ensures CompletesAt(s.slots[i], s.log, [h], r.slots[i], r.log, i)
    {
      assert Named(s.slots[i], [h]) <==> s.slots[i].easy == Some(h);
      if Holder(s.slots, h).Some? {
        var k := Holder(s.slots, h).value;
        TimesFiring(s.log, Finished(Response(s.next, s.slots[k].easy, k, s.slots[k].buffer)), i);
      }
    }
  }

  lemma {:induction false} FinishesAllCompletes(s: Snap, done: seq<nat>)
    requires OwnHandles(s.slots)
    ensures Completes(s, done, FinishesAll(s, done))
    decreases |done|
  {
    hide Finishes; hide Completes;
    if done == [] {
      CompletesSame(s);
    } else {
      var front := done[..|done| - 1];
      FinishesAllCompletes(s, front);
      CompletesKeepsOwn(s, front, FinishesAll(s, front));
      FinishesCompletes(FinishesAll(s, front), done[|done| - 1]);
      CompletesThen(s, front, FinishesAll(s, front), [done[|done| - 1]], FinishesAll(s, done));
      assert front + [done[|done| - 1]] == done;
    }
  }

  lemma ReceivesQuiet(s: Snap, h: nat, data: seq<byte>)
    ensures Completes(s, [], Receives(s, h, data))
  {
    hide TimesFinished;
  }

  lemma {:induction false} ReceivesAllQuiet(s: Snap, deliveries: seq<(nat, seq<byte>)>)
    ensures Completes(s, [], ReceivesAll(s, deliveries))
    decreases |deliveries|
  {
    hide Receives; hide Completes;
    if deliveries == [] {
      CompletesSame(s);
    } else {
      var front, last := deliveries[..|deliveries| - 1], deliveries[|deliveries| - 1];
      ReceivesAllQuiet(s, front);
      ReceivesQuiet(ReceivesAll(s, front), last.0, last.1);
      QuietThen(s, ReceivesAll(s, front), [], ReceivesAll(s, deliveries));
    }
  }

  /** A firing that is no response, and a slot that keeps its handle and its life, complete nothing. */
  lemma QuietFiring(s: Snap, f: Firing, i: nat, slot: Slot, r: Snap)
    requires !f.Finished? && i < |s.slots| && slot.easy == s.slots[i].easy && slot.live == s.slots[i].live
    requires r.slots == s.slots[i := slot] && r.log == s.log + [f]
    ensures Completes(s, [], r)
  {
    hide TimesFinished;
    forall k | 0 <= k < |s.slots|
      ensures CompletesAt(s.slots[k], s.log, [], r.slots[k], r.log, k)
    {
      TimesFiring(s.log, f, k);
    }
  }

  lemma {:induction false} DrainsQuiet(s: Snap, n: nat)
    requires n <= |s.slots|
    ensures Completes(s, [], Drains(s, n))
    decreases n
  {
    hide Completes;
    if n == 0 {
      CompletesSame(s);
    } else {
      var t := Drains(s, n - 1);
      var slot := t.slots[n - 1];
      DrainsQuiet(s, n - 1);
      CompletesSame(t);
      if slot.live && |slot.buffer| > 0 {
        QuietFiring(t, Chunk(n - 1, slot.buffer), n - 1, slot.(buffer := []), Drains(s, n));
      }
      QuietThen(s, t, [], Drains(s, n));
    }
  }

  lemma {:induction false} ReportsQuiet(s: Snap, pump: Pump, n: nat)
    requires n <= |s.slots|
    ensures Completes(s, [], Reports(s, pump, n))
    decreases n
  {
    hide Completes;
    if n == 0 {
      CompletesSame(s);
    } else {
      var t := Reports(s, pump, n - 1);
      var slot, pct := t.slots[n - 1], pump.Percent(n - 1);
      ReportsQuiet(s, pump, n - 1);
      CompletesSame(t);
      if slot.live && pct != slot.lastPct {
        QuietFiring(t, Progress(n - 1, pct), n - 1, slot.(lastPct := pct), Reports(s, pump, n));
      }
      QuietThen(s, t, [], Reports(s, pump, n));
    }
  }

  /** A pass completes exactly the transfers it reports done. */
  lemma PassCompletes(s: Snap, pump: Pump, chunkArm: bool)
    requires OwnHandles(s.slots)
    ensures Completes(s, pump.done, Passes.Passes(s, pump, chunkArm))
  {
    hide Completes; hide ReceivesAll; hide Drains; hide Reports; hide FinishesAll; hide OwnHandles;
    var received := ReceivesAll(s, pump.deliveries);
    var drained := if chunkArm then Drains(received, |received.slots|) else received;
    var reported := Reports(drained, pump, |drained.slots|);
    ReceivesAllQuiet(s, pump.deliveries);
    DrainsQuiet(received, |received.slots|);
    CompletesSame(received);
    QuietThen(s, received, [], drained);
    ReportsQuiet(drained, pump, |drained.slots|);
    QuietThen(s, drained, [], reported);
    CompletesKeepsOwn(s, [], reported);
    FinishesAllCompletes(reported, pump.done);
    QuietThen(s, reported, pump.done, FinishesAll(reported, pump.done));
  }

  /** So do any number of passes. */
  lemma {:induction false} PassesComplete(s: Snap, pumps: seq<Pump>, chunkArm: bool)
    requires OwnHandles(s.slots)
    ensures Completes(s, AllDone(pumps), PassesAll(s, pumps, chunkArm))
    decreases |pumps|
  {
    hide Completes; hide OwnHandles; hide Passes.Passes;
    if pumps == [] {
      CompletesSame(s);
    } else {
      var front, last := pumps[..|pumps| - 1], pumps[|pumps| - 1];
      var t := PassesAll(s, front, chunkArm);
      PassesComplete(s, front, chunkArm);
      CompletesKeepsOwn(s, AllDone(front), t);
      PassCompletes(t, last, chunkArm);
      CompletesThen(s, AllDone(front), t, last.done, PassesAll(s, pumps, chunkArm));
    }
  }

  // ---- whole runs ----

  /**
   * At the end of a run a transfer has finished if and only if some pass before the end
   * reported its handle done, and the finished arm was called for it no more than once.
   */
  ghost predicate FinishedAre(s: Snap, pumps: seq<Pump>, log: seq<Firing>) {
    forall i :: 0 <= i < |s.slots| ==>
      && (FinishedBody(log, i).Some?
          <==> s.slots[i].easy.Some? && exists k :: 0 <= k < |pumps| && s.slots[i].easy.value in pumps[k].done)
      && TimesFinished(log, i) <= 1
  }

  ghost predicate NoneFinished(s: Snap) {
    forall i :: 0 <= i < |s.slots| ==> TimesFinished(s.log, i) == 0
  }

  lemma AllDoneAppend(a: seq<Pump>, b: seq<Pump>)
    ensures AllDone(a + b) == AllDone(a) + AllDone(b)
    decreases |b|
  {
    if b == [] {
      assert a + b == a;
    } else {
      assert (a + b)[..|a + b| - 1] == a + b[..|b| - 1];
      AllDoneAppend(a, b[..|b| - 1]);
    }
  }

  lemma CompletedAre(s: Snap, pumps: seq<Pump>, r: Snap)
    requires NoneFinished(s) && Completes(s, AllDone(pumps), r)
    ensures FinishedAre(s, pumps, r.log)
  {
    hide TimesFinished; hide AllDone; hide FinishedBody;
    forall i | 0 <= i < |s.slots|
      ensures FinishedBody(r.log, i).Some?
          <==> s.slots[i].easy.Some? && exists k :: 0 <= k < |pumps| && s.slots[i].easy.value in pumps[k].done
      ensures TimesFinished(r.log, i) <= 1
    {
      assert CompletesAt(s.slots[i], s.log, AllDone(pumps), r.slots[i], r.log, i);
      FinishedIsTimes(r.log, i);
      if s.slots[i].easy.Some? {
        DoneIsNamed(pumps, s.slots[i].easy.value);
      }
    }
  }

  /** Any ending: cancelling finishes nothing more. */
  lemma EndsFinish(s: Snap, polls: seq<Pump>, chunkArm: bool, ending: Ending)
    requires OwnHandles(s.slots) && NoneFinished(s)
    ensures FinishedAre(s, polls + ending.Pumps(), Ends(PassesAll(s, polls, chunkArm), ending, chunkArm).log)
  {
    hide Completes; hide OwnHandles; hide PassesAll; hide Abandons; hide FinishedAre; hide NoneFinished; hide AllDone;
    var t := PassesAll(s, polls, chunkArm);
    PassesComplete(s, polls, chunkArm);
    CompletesKeepsOwn(s, AllDone(polls), t);
    var u := PassesAll(t, ending.Pumps(), chunkArm);
    PassesComplete(t, ending.Pumps(), chunkArm);
    CompletesThen(s, AllDone(polls), t, AllDone(ending.Pumps()), u);
    AllDoneAppend(polls, ending.Pumps());
    CompletedAre(s, polls + ending.Pumps(), u);
    NoPasses(t, chunkArm);
  }

  lemma NoPasses(s: Snap, chunkArm: bool)
    ensures PassesAll(s, [], chunkArm) == s
  {
  }
}
