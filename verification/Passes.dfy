/**
 * What each operation of a batch does to its slots and fires, as functions: the
 * record of a run, from which the methods may not stray.
 */
module Passes {
  import opened Wrappers
  import opened BatchState
  import opened Firings

  /** One pass of the library: bytes it delivers, percentages it reports, handles it says are done. */
  datatype Pump = Pump(deliveries: seq<(nat, seq<byte>)>, percents: seq<int>, done: seq<nat>, running: nat) {
    function Percent(i: nat): int {
      if i < |percents| then percents[i] else 0
    }
  }

  /** How one transfer is added. */
  datatype Adding = Get(easyOk: bool) | Post(easyOk: bool, headerCount: nat)

  /** How a promise is consumed. */
  datatype Ending = Finishing | Cancelling | Awaiting(pumps: seq<Pump>) {
    predicate Possible() {
      Awaiting? ==>
        |pumps| > 0 && pumps[|pumps| - 1].running == 0 && forall k :: 0 <= k < |pumps| - 1 ==> pumps[k].running > 0
    }

    /** The passes await makes; the other endings make none. */
    function Pumps(): seq<Pump> {
      if Awaiting? then pumps else []
    }
  }

  /** What a consumer can tell of a batch; `next` names what is allocated next. */
  datatype Snap = Snap(slots: seq<Slot>, log: seq<Firing>, next: nat)

  /** multi.add and multi.add.post: a full batch is returned as it is. */
  function Adds(s: Snap, a: Adding): Snap {
    if |s.slots| >= MAX_TRANSFERS then s
    else
      var easy := if a.easyOk then Some(s.next) else None;
      var url := if a.easyOk then s.next + 1 else s.next;
      match a
      case Get(_) => Snap(s.slots + [Slot(easy, [], url, None, None, true, -1)], s.log, url + 1)
      case Post(_, headerCount) =>
        var headers := if headerCount == 0 then None else Some(url + 2);
        Snap(s.slots + [Slot(easy, [], url, Some(url + 1), headers, true, -1)], s.log,
             if headerCount == 0 then url + 2 else url + 3)
  }

  function AddsAll(s: Snap, adds: seq<Adding>): Snap {
    if adds == [] then s else Adds(AddsAll(s, adds[..|adds| - 1]), adds[|adds| - 1])
  }

  /** multi.start: one firing for each of the first n slots that is live. */
  function Starts(s: Snap, n: nat): (r: Snap)
    requires n <= |s.slots|
    ensures r.slots == s.slots && r.next == s.next
  {
    if n == 0 then s
    else
      var t := Starts(s, n - 1);
      if t.slots[n - 1].live then t.(log := t.log + [Started(n - 1)]) else t
  }

  function HolderFrom(slots: seq<Slot>, h: nat, i: nat): (r: Option<nat>)
    requires i <= |slots|
    ensures r.Some? ==> i <= r.value < |slots| && slots[r.value].easy == Some(h)
    decreases |slots| - i
  {
    if i == |slots| then None else if slots[i].easy == Some(h) then Some(i) else HolderFrom(slots, h, i + 1)
  }

  /** The slot of a handle the library names. */
  function Holder(slots: seq<Slot>, h: nat): (r: Option<nat>)
    ensures r.Some? ==> r.value < |slots| && slots[r.value].easy == Some(h)
  {
    HolderFrom(slots, h, 0)
  }

  /** The write callback: the bytes go to the end of the buffer of the handle's slot. */
  function Receives(s: Snap, h: nat, data: seq<byte>): (r: Snap)
    ensures |r.slots| == |s.slots|
  {
    match Holder(s.slots, h)
    case None => s
    case Some(i) => s.(slots := s.slots[i := s.slots[i].(buffer := s.slots[i].buffer + data)])
  }

  function ReceivesAll(s: Snap, deliveries: seq<(nat, seq<byte>)>): (r: Snap)
    ensures |r.slots| == |s.slots|
  {
    if deliveries == [] then s
    else
      var last := deliveries[|deliveries| - 1];
      Receives(ReceivesAll(s, deliveries[..|deliveries| - 1]), last.0, last.1)
  }

  /** The drain: live slots among the first n with bytes fire them and are emptied. */
  function Drains(s: Snap, n: nat): (r: Snap)
    requires n <= |s.slots|
    ensures |r.slots| == |s.slots|
  {
    if n == 0 then s
    else
      var t := Drains(s, n - 1);
      var slot := t.slots[n - 1];
      if slot.live && |slot.buffer| > 0 then
        t.(slots := t.slots[n - 1 := slot.(buffer := [])], log := t.log + [Chunk(n - 1, slot.buffer)])
      else t
  }

  /** The progress report: live slots among the first n whose percentage changed fire it. */
  function Reports(s: Snap, pump: Pump, n: nat): (r: Snap)
    requires n <= |s.slots|
    ensures |r.slots| == |s.slots|
  {
    if n == 0 then s
    else
      var t := Reports(s, pump, n - 1);
      var slot := t.slots[n - 1];
      if slot.live && pump.Percent(n - 1) != slot.lastPct then
        t.(slots := t.slots[n - 1 := slot.(lastPct := pump.Percent(n - 1))],
           log := t.log + [Progress(n - 1, pump.Percent(n - 1))])
      else t
  }

  /** harvest and the finished arm: the handle's slot hands over its handle and its bytes. */
  function Finishes(s: Snap, h: nat): (r: Snap)
    ensures |r.slots| == |s.slots|
  {
    match Holder(s.slots, h)
    case None => s
    case Some(i) =>
      var slot := s.slots[i];
      if slot.live then
        Snap(s.slots[i := slot.(easy := None, buffer := [], live := false)],
             s.log + [Finished(Response(s.next, slot.easy, i, slot.buffer))], s.next + 1)
      else s
  }

  function FinishesAll(s: Snap, done: seq<nat>): (r: Snap)
    ensures |r.slots| == |s.slots|
  {
    if done == [] then s else Finishes(FinishesAll(s, done[..|done| - 1]), done[|done| - 1])
  }

  /** One pass: perform, drain if there is a chunk arm, report, harvest. */
  function Passes(s: Snap, pump: Pump, chunkArm: bool): (r: Snap)
    ensures |r.slots| == |s.slots|
  {
    var received := ReceivesAll(s, pump.deliveries);
    var drained := if chunkArm then Drains(received, |received.slots|) else received;
    FinishesAll(Reports(drained, pump, |drained.slots|), pump.done)
  }

  function PassesAll(s: Snap, pumps: seq<Pump>, chunkArm: bool): (r: Snap)
    ensures |r.slots| == |s.slots|
  {
    if pumps == [] then s else Passes(PassesAll(s, pumps[..|pumps| - 1], chunkArm), pumps[|pumps| - 1], chunkArm)
  }

  /** cancel: the live slots among the first n give up their handles and bytes. */
  function Abandons(s: Snap, n: nat): (r: Snap)
    requires n <= |s.slots|
    ensures |r.slots| == |s.slots| && r.log == s.log && r.next == s.next
  {
    if n == 0 then s
    else
      var t := Abandons(s, n - 1);
      var slot := t.slots[n - 1];
      if slot.live then t.(slots := t.slots[n - 1 := slot.(easy := None, buffer := [], live := false)]) else t
  }

  function Ends(s: Snap, ending: Ending, chunkArm: bool): Snap {
    match ending
    case Finishing => s
    case Cancelling => Abandons(s, |s.slots|)
    case Awaiting(pumps) => PassesAll(s, pumps, chunkArm)
  }

  /** The batch as it is when its promise is given; the promise takes a name of its own. */
  function Begins(next: nat, adds: seq<Adding>): Snap {
    var added := AddsAll(Snap([], [], next), adds);
    var started := Starts(added, |added.slots|);
    started.(next := started.next + 1)
  }

  /** A whole run that started, from the batch's first add. */
  function Runs(next: nat, adds: seq<Adding>, polls: seq<Pump>, chunkArm: bool, ending: Ending): Snap {
    Ends(PassesAll(Begins(next, adds), polls, chunkArm), ending, chunkArm)
  }

  lemma {:induction false} PassesAppend(s: Snap, a: seq<Pump>, b: seq<Pump>, chunkArm: bool)
    ensures PassesAll(s, a + b, chunkArm) == PassesAll(PassesAll(s, a, chunkArm), b, chunkArm)
    decreases |b|
  {
    hide Passes;
    if b == [] {
      assert a + b == a;
    } else {
      assert (a + b)[..|a + b| - 1] == a + b[..|b| - 1];
      PassesAppend(s, a, b[..|b| - 1], chunkArm);
    }
  }

  // ---- the bytes the library delivers ----

  /** All that the deliveries bring for one handle, in order. */
  function DeliveredTo(h: Option<nat>, deliveries: seq<(nat, seq<byte>)>): seq<byte> {
    if deliveries == [] then []
    else
      var last := deliveries[|deliveries| - 1];
      DeliveredTo(h, deliveries[..|deliveries| - 1]) + (if h == Some(last.0) then last.1 else [])
  }

  /** All that the passes bring for the transfer in slot i, as long as the slot has its handle. */
  function Received(s: Snap, pumps: seq<Pump>, chunkArm: bool, i: nat): seq<byte>
    requires i < |s.slots|
    decreases |pumps|
  {
    if pumps == [] then []
    else
      var front := pumps[..|pumps| - 1];
      Received(s, front, chunkArm, i)
      + DeliveredTo(PassesAll(s, front, chunkArm).slots[i].easy, pumps[|pumps| - 1].deliveries)
  }

  /** Each slot took exactly what was delivered to its handle. */
  ghost predicate Takes(slots: seq<Slot>, got0: seq<seq<byte>>, deliveries: seq<(nat, seq<byte>)>,
                        got1: seq<seq<byte>>) {
    && |got0| == |got1| == |slots|
    && forall i :: 0 <= i < |slots| ==> got1[i] == got0[i] + DeliveredTo(slots[i].easy, deliveries)
  }

  /** Over several passes, each slot took exactly what they brought for it. */
  ghost predicate TakesOver(s: Snap, got0: seq<seq<byte>>, pumps: seq<Pump>, chunkArm: bool, got1: seq<seq<byte>>) {
    && |got0| == |got1| == |s.slots|
    && forall i :: 0 <= i < |s.slots| ==> got1[i] == got0[i] + Received(s, pumps, chunkArm, i)
  }

  ghost predicate SameEasies(a: seq<Slot>, b: seq<Slot>) {
    |a| == |b| && forall i :: 0 <= i < |a| ==> a[i].easy == b[i].easy
  }

  /** Receiving moves no handle. */
  lemma {:induction false} ReceivesKeepEasies(s: Snap, deliveries: seq<(nat, seq<byte>)>)
    ensures SameEasies(s.slots, ReceivesAll(s, deliveries).slots)
    decreases |deliveries|
  {
    if deliveries != [] {
      ReceivesKeepEasies(s, deliveries[..|deliveries| - 1]);
    }
  }

  lemma TakesNothing(slots: seq<Slot>, got: seq<seq<byte>>)
    requires |got| == |slots|
    ensures Takes(slots, got, [], got)
  {
  }

  lemma TakesMore(a: seq<Slot>, b: seq<Slot>, got0: seq<seq<byte>>, got1: seq<seq<byte>>, got2: seq<seq<byte>>,
                  deliveries: seq<(nat, seq<byte>)>, d: (nat, seq<byte>))
    requires Takes(a, got0, deliveries, got1) && SameEasies(a, b) && Takes(b, got1, [d], got2)
    ensures Takes(a, got0, deliveries + [d], got2)
  {
    forall i | 0 <= i < |a|
      ensures got2[i] == got0[i] + DeliveredTo(a[i].easy, deliveries + [d])
    {
      DeliveredLast(a[i].easy, deliveries, d);
      var x, y := DeliveredTo(a[i].easy, deliveries), DeliveredTo(a[i].easy, [d]);
      assert got0[i] + (x + y) == got0[i] + x + y;
    }
  }

  lemma DeliveredLast(h: Option<nat>, deliveries: seq<(nat, seq<byte>)>, d: (nat, seq<byte>))
    ensures DeliveredTo(h, [d]) == if h == Some(d.0) then d.1 else []
    ensures DeliveredTo(h, deliveries + [d]) == DeliveredTo(h, deliveries) + DeliveredTo(h, [d])
  {
    assert (deliveries + [d])[..|deliveries|] == deliveries;
    assert [d][..0] == [];
    assert [] + d.1 == d.1;
  }

  lemma TakesOverNothing(s: Snap, got: seq<seq<byte>>, chunkArm: bool)
    requires |got| == |s.slots|
    ensures TakesOver(s, got, [], chunkArm, got)
  {
  }

  lemma TakesOverPass(s: Snap, got0: seq<seq<byte>>, pumps: seq<Pump>, k: nat, chunkArm: bool,
                      got1: seq<seq<byte>>, got2: seq<seq<byte>>)
    requires k < |pumps| && TakesOver(s, got0, pumps[..k], chunkArm, got1)
    requires Takes(PassesAll(s, pumps[..k], chunkArm).slots, got1, pumps[k].deliveries, got2)
    ensures TakesOver(s, got0, pumps[..k + 1], chunkArm, got2)
  {
    hide PassesAll; hide DeliveredTo;
    assert pumps[..k + 1][..k] == pumps[..k];
    forall i | 0 <= i < |s.slots|
      ensures got2[i] == got0[i] + Received(s, pumps[..k + 1], chunkArm, i)
    {
      var x := Received(s, pumps[..k], chunkArm, i);
      var y := DeliveredTo(PassesAll(s, pumps[..k], chunkArm).slots[i].easy, pumps[k].deliveries);
      assert got0[i] + (x + y) == got0[i] + x + y;
    }
  }

  lemma {:induction false} ReceivedAppend(s: Snap, a: seq<Pump>, b: seq<Pump>, chunkArm: bool, i: nat)
    requires i < |s.slots|
    ensures Received(s, a + b, chunkArm, i)
         == Received(s, a, chunkArm, i) + Received(PassesAll(s, a, chunkArm), b, chunkArm, i)
    decreases |b|
  {
    hide PassesAll; hide DeliveredTo;
    if b == [] {
      assert a + b == a;
    } else {
      var front := b[..|b| - 1];
      assert (a + b)[..|a + b| - 1] == a + front;
      ReceivedAppend(s, a, front, chunkArm, i);
      PassesAppend(s, a, front, chunkArm);
    }
  }

  lemma TakesOverAppend(s: Snap, a: seq<Pump>, b: seq<Pump>, chunkArm: bool,
                        got0: seq<seq<byte>>, got1: seq<seq<byte>>, got2: seq<seq<byte>>)
    requires TakesOver(s, got0, a, chunkArm, got1) && TakesOver(PassesAll(s, a, chunkArm), got1, b, chunkArm, got2)
    ensures TakesOver(s, got0, a + b, chunkArm, got2)
  {
    hide PassesAll; hide Received;
    forall i | 0 <= i < |s.slots|
      ensures got2[i] == got0[i] + Received(s, a + b, chunkArm, i)
    {
      ReceivedAppend(s, a, b, chunkArm, i);
      var x, y := Received(s, a, chunkArm, i), Received(PassesAll(s, a, chunkArm), b, chunkArm, i);
      assert got0[i] + (x + y) == got0[i] + x + y;
    }
  }

  /**
   * Every transfer that finished handed out, in its chunks and then its body, exactly
   * what the passes brought for it.
   */
  ghost predicate AllHandedOut(s: Snap, pumps: seq<Pump>, chunkArm: bool, log: seq<Firing>) {
    forall i :: 0 <= i < |s.slots| && FinishedBody(log, i).Some? ==>
      Chunked(log, i) + FinishedBody(log, i).value == Received(s, pumps, chunkArm, i)
  }

  // ---- the responses handed out ----

  /** The responses the finished arm was called with, by their struct. */
  function Handed(log: seq<Firing>): map<nat, Response>
    decreases |log|
  {
    if log == [] then map[]
    else
      var last := log[|log| - 1];
      var t := Handed(log[..|log| - 1]);
      if last.Finished? then t[last.response.self := last.response] else t
  }

  lemma HandedFiring(log: seq<Firing>, f: Firing)
    ensures Handed(log + [f]) == if f.Finished? then Handed(log)[f.response.self := f.response] else Handed(log)
  {
    assert (log + [f])[..|log|] == log;
  }
}
