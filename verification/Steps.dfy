/** What each step of a batch does to its slots and tells its arms, slot by slot. */
module Steps {
  import opened Wrappers
  import opened BatchState
  import opened Firings
  import opened Passes
  import opened Finishing

  /** Firings about one slot each, in slot order, none about a slot from n on. */
  ghost predicate InSlotOrder(news: seq<Firing>, n: nat) {
    && (forall k :: 0 <= k < |news| ==> !news[k].Finished? && news[k].index < n)
    && forall j, k :: 0 <= j < k < |news| ==> news[j].index < news[k].index
  }

  lemma OneMore(news: seq<Firing>, n: nat, f: Firing)
    requires InSlotOrder(news, n) && !f.Finished? && f.index == n
    ensures InSlotOrder(news + [f], n + 1)
    ensures forall g :: g in news + [f] <==> g in news || g == f
  {
  }

  lemma NoMore(news: seq<Firing>, n: nat)
    requires InSlotOrder(news, n)
    ensures InSlotOrder(news, n + 1)
  {
  }

  /** multi.start: each live transfer fires once, in order, and nothing else does. */
  lemma {:induction false} StartsSays(s: Snap, n: nat) returns (news: seq<Firing>)
    requires n <= |s.slots|
    ensures Starts(s, n).log == s.log + news && InSlotOrder(news, n)
    ensures forall f :: f in news <==> f.Started? && f.index < n && s.slots[f.index].live
    decreases n
  {
    hide InSlotOrder;
    if n == 0 {
      news := [];
      assert InSlotOrder([], 0) by { NothingInOrder(); }
    } else {
      news := StartsSays(s, n - 1);
      NoMore(news, n - 1);
      if s.slots[n - 1].live {
        OneMore(news, n - 1, Started(n - 1));
        news := news + [Started(n - 1)];
      }
    }
  }

  lemma NothingInOrder()
    ensures InSlotOrder([], 0)
  {
  }

  /** The drain: every live slot with bytes fires them, in slot order, and no live slot keeps any. */
  lemma {:induction false} DrainsSays(s: Snap, n: nat) returns (news: seq<Firing>)
    requires n <= |s.slots|
    ensures Drains(s, n).log == s.log + news && InSlotOrder(news, n)
    ensures forall f :: f in news <==>
      f.Chunk? && f.index < n && s.slots[f.index].live && f.data == s.slots[f.index].buffer != []
    ensures forall i :: 0 <= i < |s.slots| ==>
      Drains(s, n).slots[i] == if i < n && s.slots[i].live then s.slots[i].(buffer := []) else s.slots[i]
    decreases n
  {
    hide InSlotOrder;
    if n == 0 {
      news := [];
      NothingInOrder();
    } else {
      news := DrainsSays(s, n - 1);
      NoMore(news, n - 1);
      var slot := s.slots[n - 1];
      assert Drains(s, n - 1).slots[n - 1] == slot;
      if slot.live && slot.buffer != [] {
        OneMore(news, n - 1, Chunk(n - 1, slot.buffer));
        news := news + [Chunk(n - 1, slot.buffer)];
      }
    }
  }

  /** The progress report: every live slot whose percentage changed fires it, in slot order, and remembers it. */
  lemma {:induction false} ReportsSays(s: Snap, pump: Pump, n: nat) returns (news: seq<Firing>)
    requires n <= |s.slots|
    ensures Reports(s, pump, n).log == s.log + news && InSlotOrder(news, n)
    ensures forall f :: f in news <==>
      f.Progress? && f.index < n && s.slots[f.index].live && f.percent == pump.Percent(f.index)
      && f.percent != s.slots[f.index].lastPct
    ensures forall i :: 0 <= i < |s.slots| ==>
      Reports(s, pump, n).slots[i]
      == if i < n && s.slots[i].live then s.slots[i].(lastPct := pump.Percent(i)) else s.slots[i]
    decreases n
  {
    hide InSlotOrder;
    if n == 0 {
      news := [];
      NothingInOrder();
    } else {
      news := ReportsSays(s, pump, n - 1);
      NoMore(news, n - 1);
      var slot, pct := s.slots[n - 1], pump.Percent(n - 1);
      assert Reports(s, pump, n - 1).slots[n - 1] == slot;
      if slot.live && pct != slot.lastPct {
        OneMore(news, n - 1, Progress(n - 1, pct));
        news := news + [Progress(n - 1, pct)];
      }
    }
  }

  /** cancel: every live slot gives up its handle and its bytes and keeps the rest; nothing fires. */
  lemma {:induction false} AbandonsSays(s: Snap, n: nat)
    requires n <= |s.slots|
    ensures var r := Abandons(s, n);
      && r.log == s.log
      && forall i :: 0 <= i < |s.slots| ==>
           r.slots[i] == if i < n && s.slots[i].live then s.slots[i].(easy := None, buffer := [], live := false)
                         else s.slots[i]
    decreases n
  {
    if n > 0 {
      AbandonsSays(s, n - 1);
    }
  }

  /** perform: each slot's buffer grows by all that is delivered to its handle, in order; nothing else changes. */
  lemma {:induction false} ReceivesSays(s: Snap, deliveries: seq<(nat, seq<byte>)>)
    requires OwnHandles(s.slots)
    ensures var r := ReceivesAll(s, deliveries);
      && r.log == s.log && r.next == s.next
      && forall i :: 0 <= i < |s.slots| ==>
           r.slots[i] == s.slots[i].(buffer := s.slots[i].buffer + DeliveredTo(s.slots[i].easy, deliveries))
    decreases |deliveries|
  {
    if deliveries != [] {
      var front, last := deliveries[..|deliveries| - 1], deliveries[|deliveries| - 1];
      ReceivesSays(s, front);
      var t := ReceivesAll(s, front);
      HolderIs(t.slots, last.0, 0);
      forall i | 0 <= i < |s.slots|
        ensures ReceivesAll(s, deliveries).slots[i]
             == s.slots[i].(buffer := s.slots[i].buffer + DeliveredTo(s.slots[i].easy, deliveries))
      {
        var x, y := s.slots[i].buffer, DeliveredTo(s.slots[i].easy, front);
        assert (x + y) + last.1 == x + (y + last.1);
        assert y + [] == y;
      }
    }
  }

  /** After a pass every slot still live has told its last percentage and, under a chunk arm, all its bytes. */
  lemma PassSays(s: Snap, pump: Pump, chunkArm: bool)
    requires OwnHandles(s.slots)
    ensures var r := Passes.Passes(s, pump, chunkArm);
      forall i :: 0 <= i < |r.slots| && r.slots[i].live ==>
        r.slots[i].lastPct == pump.Percent(i) && (chunkArm ==> r.slots[i].buffer == [])
  {
    hide ReceivesAll; hide Drains; hide Reports; hide FinishesAll; hide DeliveredTo;
    var received := ReceivesAll(s, pump.deliveries);
    ReceivesSays(s, pump.deliveries);
    var chunks := DrainsSays(received, |received.slots|);
    var drained := if chunkArm then Drains(received, |received.slots|) else received;
    var changes := ReportsSays(drained, pump, |drained.slots|);
    FinishesAllKeeps(Reports(drained, pump, |drained.slots|), pump.done);
  }

  /** A slot that is live after harvesting is as it was. */
  lemma {:induction false} FinishesAllKeeps(s: Snap, done: seq<nat>)
    ensures var r := FinishesAll(s, done);
      forall i :: 0 <= i < |s.slots| && r.slots[i].live ==> r.slots[i] == s.slots[i]
    decreases |done|
  {
    if done != [] {
      FinishesAllKeeps(s, done[..|done| - 1]);
    }
  }

  // ---- the batch as it starts ----

  /** All the handles given so far are below the next name. */
  ghost predicate Below(slots: seq<Slot>, next: nat) {
    forall i :: 0 <= i < |slots| && slots[i].easy.Some? ==> slots[i].easy.value < next
  }

  /** The slot a transfer begins in: live, with nothing received or reported, and whatever it needs of its own. */
  predicate Placed(s: Slot, a: Adding) {
    && s.live && s.buffer == [] && s.lastPct == -1
    && (s.easy.Some? <==> a.easyOk)
    && (s.body.Some? <==> a.Post?)
    && (s.headers.Some? <==> a.Post? && a.headerCount > 0)
  }

  /** Adding: the first 32 transfers get a slot each, in order, with a handle no other has. */
  lemma {:induction false} AddsAllSays(next: nat, adds: seq<Adding>)
    ensures var r := AddsAll(Snap([], [], next), adds);
      && r.log == [] && r.next >= next
      && |r.slots| == (if |adds| < 32 then |adds| else 32)
      && (forall i :: 0 <= i < |r.slots| ==> Placed(r.slots[i], adds[i]))
      && OwnHandles(r.slots) && Below(r.slots, r.next)
    decreases |adds|
  {
    if adds != [] {
      AddsAllSays(next, adds[..|adds| - 1]);
      AddsSays(AddsAll(Snap([], [], next), adds[..|adds| - 1]), adds[|adds| - 1]);
    }
  }

  lemma AddsSays(s: Snap, a: Adding)
    requires OwnHandles(s.slots) && Below(s.slots, s.next)
    ensures var r := Adds(s, a);
      && r.log == s.log && r.next >= s.next && OwnHandles(r.slots) && Below(r.slots, r.next)
      && if |s.slots| < 32 then |r.slots| == |s.slots| + 1 && s.slots <= r.slots && Placed(r.slots[|s.slots|], a)
         else r == s
  {
  }

  /** When the promise is given: a slot for each of the first 32 transfers, and each was told started, in order. */
  lemma BeginsSays(next: nat, adds: seq<Adding>)
    ensures var r := Begins(next, adds);
      && |r.slots| == (if |adds| < 32 then |adds| else 32)
      && (forall i :: 0 <= i < |r.slots| ==> Placed(r.slots[i], adds[i]))
      && r.log == seq(|r.slots|, i requires 0 <= i => Started(i))
      && OwnHandles(r.slots) && NoneFinished(r)
  {
    hide AddsAll; hide Starts; hide TimesFinished; hide OwnHandles;
    AddsAllSays(next, adds);
    var added := AddsAll(Snap([], [], next), adds);
    AllStarted(added, |added.slots|);
    NothingFinished(Begins(next, adds));
  }

  lemma {:induction false} AllStarted(s: Snap, n: nat)
    requires n <= |s.slots| && s.log == [] && forall i :: 0 <= i < n ==> s.slots[i].live
    ensures Starts(s, n).log == seq(n, i requires 0 <= i => Started(i))
    decreases n
  {
    if n > 0 {
      AllStarted(s, n - 1);
    }
  }

  lemma NothingFinished(s: Snap)
    requires forall k :: 0 <= k < |s.log| ==> s.log[k].Started?
    ensures NoneFinished(s)
  {
    forall i | 0 <= i < |s.slots|
      ensures TimesFinished(s.log, i) == 0
    {
      OnlyStarted(s.log, i);
    }
  }

  lemma {:induction false} OnlyStarted(log: seq<Firing>, i: nat)
    requires forall k :: 0 <= k < |log| ==> log[k].Started?
    ensures TimesFinished(log, i) == 0
    decreases |log|
  {
    if log != [] {
      OnlyStarted(log[..|log| - 1], i);
    }
  }
}
