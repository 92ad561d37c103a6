/** What the arms of a batch are called with, and what that says about the bytes. */
module Firings {
  import opened Wrappers
  import opened BatchState

  datatype Firing =
    | Started(index: nat)
    | Chunk(index: nat, data: seq<byte>)
    | Progress(index: nat, percent: int)
    | Finished(response: Response)

  /** The data handed to the chunk arm for one transfer, in order. */
  function Chunked(log: seq<Firing>, i: nat): seq<byte> {
    if log == [] then []
    else
      var last := log[|log| - 1];
      Chunked(log[..|log| - 1], i) + (if last.Chunk? && last.index == i then last.data else [])
  }

  /** The body a transfer finished with, if it finished. */
  function FinishedBody(log: seq<Firing>, i: nat): Option<seq<byte>> {
    if log == [] then None
    else
      var last := log[|log| - 1];
      if last.Finished? && last.response.index == i then Some(last.response.body)
      else FinishedBody(log[..|log| - 1], i)
  }

  /** The percentage last reported for a transfer; -1 before the first report. */
  function LastPercent(log: seq<Firing>, i: nat): int {
    if log == [] then -1
    else
      var last := log[|log| - 1];
      if last.Progress? && last.index == i then last.percent else LastPercent(log[..|log| - 1], i)
  }

  /** Progress is reported only when the percentage changed. */
  ghost predicate ReportsChanges(log: seq<Firing>) {
    log == [] ||
    var last := log[|log| - 1];
    ReportsChanges(log[..|log| - 1]) &&
    (last.Progress? ==> last.percent != LastPercent(log[..|log| - 1], last.index))
  }

  lemma Fired(log: seq<Firing>, f: Firing, i: nat)
    ensures Chunked(log + [f], i) == Chunked(log, i) + (if f.Chunk? && f.index == i then f.data else [])
    ensures FinishedBody(log + [f], i)
         == if f.Finished? && f.response.index == i then Some(f.response.body) else FinishedBody(log, i)
    ensures LastPercent(log + [f], i) == if f.Progress? && f.index == i then f.percent else LastPercent(log, i)
    ensures ReportsChanges(log + [f])
        <==> ReportsChanges(log) && (f.Progress? ==> f.percent != LastPercent(log, f.index))
  {
    assert (log + [f])[..|log|] == log;
  }

  // ---- conservation of bytes ----

  /**
   * Every byte received for a transfer was handed out in its chunks, in order, and
   * then sits in the buffer while it runs, or was in the body it finished with.
   */
  ghost predicate ConservedAt(s: Slot, log: seq<Firing>, received: seq<byte>, i: nat) {
    if s.live then FinishedBody(log, i) == None && received == Chunked(log, i) + s.buffer
    else FinishedBody(log, i).Some? && received == Chunked(log, i) + FinishedBody(log, i).value
  }

  ghost predicate Conserved(slots: seq<Slot>, log: seq<Firing>, got: seq<seq<byte>>) {
    && |got| == |slots|
    && (forall i :: 0 <= i < |slots| ==> ConservedAt(slots[i], log, got[i], i))
    && (forall i :: 0 <= i < |slots| ==> slots[i].lastPct == LastPercent(log, i))
    && (forall i :: i >= |slots| ==> Untouched(log, i))
    && ReportsChanges(log)
  }

  ghost predicate Untouched(log: seq<Firing>, i: nat) {
    Chunked(log, i) == [] && FinishedBody(log, i) == None && LastPercent(log, i) == -1
  }

  lemma ConservedAdd(slots: seq<Slot>, log: seq<Firing>, got: seq<seq<byte>>, s: Slot)
    requires Conserved(slots, log, got) && s.live && s.buffer == [] && s.lastPct == -1
    ensures Conserved(slots + [s], log, got + [[]])
  {
    hide Chunked; hide FinishedBody; hide LastPercent; hide ReportsChanges;
    assert Untouched(log, |slots|);
    assert Chunked(log, |slots|) + s.buffer == [];
  }

  /** The write callback appends to a live transfer's buffer. */
  lemma ConservedDeliver(slots: seq<Slot>, log: seq<Firing>, got: seq<seq<byte>>, i: nat, data: seq<byte>)
    requires Conserved(slots, log, got) && i < |slots| && slots[i].live
    ensures |got| == |slots|
    ensures Conserved(slots[i := slots[i].(buffer := slots[i].buffer + data)], log, got[i := got[i] + data])
  {
    assert ConservedAt(slots[i], log, got[i], i);
    assert Chunked(log, i) + (slots[i].buffer + data) == Chunked(log, i) + slots[i].buffer + data;
  }

  /** A firing about one transfer leaves the account of the others alone. */
  lemma ConservedOthers(slots: seq<Slot>, log: seq<Firing>, got: seq<seq<byte>>, f: Firing, i: nat, s: Slot)
    requires Conserved(slots, log, got) && i < |slots|
    requires match f
             case Started(_) => false
             case Finished(r) => r.index == i
             case Chunk(j, _) => j == i
             case Progress(j, _) => j == i
    requires f.Progress? ==> f.percent != LastPercent(log, i)
    requires ConservedAt(s, log + [f], got[i], i) && s.lastPct == LastPercent(log + [f], i)
    ensures Conserved(slots[i := s], log + [f], got)
  {
    forall j | 0 <= j < |slots|
      ensures ConservedAt(slots[i := s][j], log + [f], got[j], j)
      ensures slots[i := s][j].lastPct == LastPercent(log + [f], j)
    {
      Fired(log, f, j);
      assert ConservedAt(slots[j], log, got[j], j);
    }
    forall j | j >= |slots|
      ensures Untouched(log + [f], j)
    {
      Fired(log, f, j);
      assert Untouched(log, j);
    }
    Fired(log, f, i);
  }

  lemma ConservedDrain(slots: seq<Slot>, log: seq<Firing>, got: seq<seq<byte>>, i: nat)
    requires Conserved(slots, log, got) && i < |slots| && slots[i].live
    ensures Conserved(slots[i := slots[i].(buffer := [])], log + [Chunk(i, slots[i].buffer)], got)
  {
    var f := Chunk(i, slots[i].buffer);
    Fired(log, f, i);
    assert ConservedAt(slots[i], log, got[i], i);
    ConservedOthers(slots, log, got, f, i, slots[i].(buffer := []));
  }

  lemma ConservedProgress(slots: seq<Slot>, log: seq<Firing>, got: seq<seq<byte>>, i: nat, percent: int)
    requires Conserved(slots, log, got) && i < |slots| && percent != slots[i].lastPct
    ensures Conserved(slots[i := slots[i].(lastPct := percent)], log + [Progress(i, percent)], got)
  {
    Fired(log, Progress(i, percent), i);
    assert ConservedAt(slots[i], log, got[i], i);
    ConservedOthers(slots, log, got, Progress(i, percent), i, slots[i].(lastPct := percent));
  }

  lemma ConservedFinish(slots: seq<Slot>, log: seq<Firing>, got: seq<seq<byte>>, i: nat, r: Response)
    requires Conserved(slots, log, got) && i < |slots| && slots[i].live
    requires r.index == i && r.body == slots[i].buffer
    ensures Conserved(slots[i := slots[i].(easy := None, buffer := [], live := false)], log + [Finished(r)], got)
  {
    Fired(log, Finished(r), i);
    assert ConservedAt(slots[i], log, got[i], i);
    ConservedOthers(slots, log, got, Finished(r), i, slots[i].(easy := None, buffer := [], live := false));
  }

  lemma ConservedStart(slots: seq<Slot>, log: seq<Firing>, got: seq<seq<byte>>, i: nat)
    requires Conserved(slots, log, got)
    ensures Conserved(slots, log + [Started(i)], got)
  {
    forall j | 0 <= j < |slots|
      ensures ConservedAt(slots[j], log + [Started(i)], got[j], j)
      ensures slots[j].lastPct == LastPercent(log + [Started(i)], j)
    {
      Fired(log, Started(i), j);
      assert ConservedAt(slots[j], log, got[j], j);
    }
    forall j | j >= |slots|
      ensures Untouched(log + [Started(i)], j)
    {
      Fired(log, Started(i), j);
      assert Untouched(log, j);
    }
    Fired(log, Started(i), 0);
  }

  // ---- no chunk arm, no chunks ----

  ghost predicate NoChunks(log: seq<Firing>) {
    forall k :: 0 <= k < |log| ==> !log[k].Chunk?
  }

  lemma {:induction false} NoChunksNoData(log: seq<Firing>, i: nat)
    requires NoChunks(log)
    ensures Chunked(log, i) == []
    decreases |log|
  {
    if log != [] {
      NoChunksNoData(log[..|log| - 1], i);
    }
  }

  /** Without a chunk arm the finished body alone is every byte received. */
  lemma WholeBodyWithoutChunks(slots: seq<Slot>, log: seq<Firing>, got: seq<seq<byte>>, i: nat)
    requires Conserved(slots, log, got) && NoChunks(log) && i < |slots| && !slots[i].live
    ensures FinishedBody(log, i) == Some(got[i])
  {
    assert ConservedAt(slots[i], log, got[i], i);
    NoChunksNoData(log, i);
    assert [] + FinishedBody(log, i).value == FinishedBody(log, i).value;
  }
}
