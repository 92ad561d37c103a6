/** The batch interface: many transfers in one slot array, driven by non-blocking passes. */
module Multi {
  import opened Wrappers
  import opened Ledger
  import opened BatchState
  import opened Firings
  import opened Passes
  import opened Finishing
  import opened Steps

  class Batch {
    const books: Books
    const self: nat
    const slots: array<Slot>
    var handle: Option<nat>
    var pending: Option<nat>
    var count: nat
    var log: seq<Firing>
    /** Responses handed out and not closed yet, by their struct. */
    var open: map<nat, Response>
    /** The responses closed so far. */
    ghost var closed: set<nat>
    /** Every byte the write callback appended for each transfer. */
    ghost var got: seq<seq<byte>>

    ghost predicate Shaped()
      reads this
    {
      slots.Length == MAX_TRANSFERS && count <= MAX_TRANSFERS
    }

    ghost function Now(): State
      requires Shaped()
      reads this, books, slots
    {
      State(books.owner, books.attached, self, handle, pending, slots[..count], open)
    }

    ghost predicate Valid()
      reads this, books, slots
    {
      Shaped() && books.Valid() && Held(Now(), 0)
    }

    ghost function Look(): Snap
      requires Shaped()
      reads this, books, slots
    {
      Snap(slots[..count], log, books.next)
    }

    ghost predicate Conserving()
      requires Shaped()
      reads this, slots
    {
      Conserved(slots[..count], log, got)
    }

    /** Every response fired was handed out, and no other; those not open any more were closed. */
    ghost predicate Tracking()
      reads this, books
    {
      open == Handed(log) - closed && forall r :: r in closed ==> r < books.next
    }

    /** multi.new; curl_multi_init may fail and leave a null handle. */
    constructor (books: Books, initOk: bool)
      requires books.Valid() && books.owner == map[]
      modifies books
      ensures Valid() && Conserving() && Tracking() && fresh(this) && fresh(slots) && this.books == books
      ensures count == 0 && log == [] && got == [] && open == map[] && pending == None && (handle.Some? <==> initOk)
      ensures books.next == old(books.next) + if initOk then 2 else 1
    {
      this.books := books;
      slots := new Slot[MAX_TRANSFERS](_ => Slot(None, [], 0, None, None, false, -1));
      count, log, pending, open, closed, got := 0, [], None, map[], {}, [];
      ghost var root := books.next;
      var m := books.Alloc(root, MultiStruct);
      self := m;
      var h: Option<nat> := None;
      if initOk {
        var id := books.Alloc(root, MultiHandle);
        h := Some(id);
      }
      handle := h;
    }

    /** Fills the next slot; shared tail of multi.add and multi.add.post. */
    method Place(easy: Option<nat>, url: nat, body: Option<nat>, headers: Option<nat>, ghost before: State)
      requires Shaped() && books.Valid() && count < MAX_TRANSFERS && Conserving()
      requires Held(before, 0) && FreshIds(before, [easy, Some(url), body, headers])
      requires Added(before, easy, url, body, headers).owner == books.owner
      requires Now() == before.(owner := books.owner)
      modifies this`count, this`got, slots, books
      ensures Valid() && Conserving()
      ensures Now() == Added(before, easy, url, body, headers)
      ensures count == old(count) + 1 && books.next == old(books.next)
      ensures slots[..count] == old(slots[..count]) + [Slot(easy, [], url, body, headers, true, -1)]
      ensures got == old(got) + [[]]
    {
      HeldAdded(before, easy, url, body, headers);
      var slot := Slot(easy, [], url, body, headers, true, -1);
      ConservedAdd(slots[..count], log, got, slot);
      slots[count] := slot;
      books.Attach(easy);
      count := count + 1;
      got := got + [[]];
      assert slots[..count] == old(slots[..count]) + [slot];
      assert Now() == Added(before, easy, url, body, headers);
    }

    /** curl_easy_init may fail and leave a null handle. */
    method InitEasy(easyOk: bool) returns (easy: Option<nat>)
      requires books.Valid()
      modifies books
      ensures books.Valid() && books.attached == old(books.attached)
      ensures easy == if easyOk then Some(old(books.next)) else None
      ensures books.next == old(books.next) + if easyOk then 1 else 0
      ensures books.owner == Tag(old(books.owner), easy, self, EasyOf(old(count)))
    {
      easy := None;
      if easyOk {
        var id := books.Alloc(self, EasyOf(count));
        easy := Some(id);
      }
    }

    /** multi.add: past the capacity nothing is added. */
    method Add(easyOk: bool)
      requires Valid() && Conserving()
      modifies this`count, this`got, slots, books
      ensures Valid() && Conserving()
      ensures Look() == Adds(old(Look()), Get(easyOk))
      ensures got == old(got) + if old(count) < MAX_TRANSFERS then [[]] else []
      ensures old(Tracking()) ==> Tracking()
    {
      hide Held; hide Conserved;
      if count >= MAX_TRANSFERS { return; }
      ghost var before := Now();
      var easy := InitEasy(easyOk);
      var url := books.Alloc(self, UrlOf(count));
      Place(easy, url, None, None, before);
    }

    /** The header list: its head is allocated by the first append and kept by the later ones. */
    method BuildHeaders(headerCount: nat) returns (headers: Option<nat>)
      requires books.Valid()
      modifies books
      ensures books.Valid() && books.attached == old(books.attached)
      ensures headers == if headerCount == 0 then None else Some(old(books.next))
      ensures books.next == old(books.next) + if headerCount == 0 then 0 else 1
      ensures books.owner == Tag(old(books.owner), headers, self, HeadersOf(old(count)))
    {
      headers := None;
      ghost var id0 := books.next;
      var k := 0;
      while k < headerCount
        invariant 0 <= k <= headerCount
        invariant books.Valid() && books.attached == old(books.attached)
        invariant headers == if k == 0 then None else Some(id0)
        invariant books.next == id0 + if k == 0 then 0 else 1
        invariant books.owner == Tag(old(books.owner), headers, self, HeadersOf(old(count)))
      {
        if headers.None? {
          var id := books.Alloc(self, HeadersOf(count));
          headers := Some(id);
        }
        k := k + 1;
      }
    }

    method AllocPost(easyOk: bool, headerCount: nat)
        returns (easy: Option<nat>, url: nat, body: nat, headers: Option<nat>)
      requires books.Valid()
      modifies books
      ensures books.Valid() && books.attached == old(books.attached)
      ensures easy == if easyOk then Some(old(books.next)) else None
      ensures url == old(books.next) + (if easyOk then 1 else 0) && body == url + 1
      ensures headers == if headerCount == 0 then None else Some(url + 2)
      ensures books.next == if headerCount == 0 then url + 2 else url + 3
      ensures books.owner
           == Tag(Tag(Tag(Tag(old(books.owner), easy, self, EasyOf(count)), Some(url), self, UrlOf(count)),
                      Some(body), self, BodyOf(count)), headers, self, HeadersOf(count))
    {
      easy := InitEasy(easyOk);
      url := books.Alloc(self, UrlOf(count));
      body := books.Alloc(self, BodyOf(count));
      headers := BuildHeaders(headerCount);
    }

    /** multi.add.post: the slot also owns a copy of the body, and a header list if there are headers. */
    method AddPost(easyOk: bool, headerCount: nat)
      requires Valid() && Conserving()
      modifies this`count, this`got, slots, books
      ensures Valid() && Conserving()
      ensures Look() == Adds(old(Look()), Post(easyOk, headerCount))
      ensures got == old(got) + if old(count) < MAX_TRANSFERS then [[]] else []
      ensures old(Tracking()) ==> Tracking()
    {
      hide Held; hide Conserved; hide FreshIds; hide Tag;
      if count >= MAX_TRANSFERS { return; }
      ghost var before := Now();
      var easy, url, body, headers := AllocPost(easyOk, headerCount);
      FreshFour(before, easy, url, body, headers, old(books.next));
      Place(easy, url, Some(body), headers, before);
    }

    /** multi.start: one firing a live transfer, then the promise; nothing is released on failure. */
    method Start() returns (started: bool)
      requires Valid() && Conserving() && pending.None?
      modifies this`pending, this`log, books
      ensures Valid() && Conserving()
      ensures started <==> handle.Some?
      ensures started <==> pending.Some?
      ensures !started ==> books.owner == old(books.owner) && Look() == old(Look())
      ensures started ==> Look() == Passes.Starts(old(Look()), count).(next := old(books.next) + 1)
      ensures NoChunks(old(log)) ==> NoChunks(log)
      ensures old(Tracking()) ==> Tracking()
    {
      hide Held; hide Conserved; hide Handed;
      if handle.None? { return false; }
      var i := 0;
      while i < count
        invariant 0 <= i <= count
        invariant Valid() && Conserving() && pending.None?
        invariant NoChunks(old(log)) ==> NoChunks(log)
        invariant Look() == Passes.Starts(old(Look()), i) && Handed(log) == Handed(old(log))
      {
        if slots[i].live {
          HandedFiring(log, Started(i));
          ConservedStart(slots[..count], log, got, i);
          log := log + [Started(i)];
        }
        i := i + 1;
      }
      ghost var before := Now();
      var p := books.Alloc(self, PendingStruct);
      HeldPending(before, p);
      pending := Some(p);
      return true;
    }

    // ---- one pass ----

    /** The write callback for one attached handle: its slot takes the bytes, no other does. */
    method Deliver(h: nat, data: seq<byte>)
      requires Valid() && Conserving()
      modifies this`got, slots
      ensures Valid() && Conserving()
      ensures Look() == Receives(old(Look()), h, data)
      ensures Takes(old(slots[..count]), old(got), [(h, data)], got)
    {
      hide Held; hide Conserved; hide DeliveredTo;
      ghost var s := slots[..count];
      GotForEach(s, log, got);
      DeliveredOnce(h, data);
      var i := 0;
      while i < count
        invariant 0 <= i <= count && s == slots[..count]
        invariant Valid() && Conserving() && got == old(got)
        invariant HolderFrom(s, h, i) == Holder(s, h)
        invariant forall k :: 0 <= k < i ==> s[k].easy != Some(h)
      {
        if slots[i].easy == Some(h) {
          LiveIfEasy(Now(), i);
          EasiesDiffer(Now());
          ConservedDeliver(s, log, got, i, data);
          SetSlot(i, slots[i].buffer + data, slots[i].lastPct);
          got := got[i := got[i] + data];
          return;
        }
        i := i + 1;
      }
    }

    method SetSlot(i: nat, buffer: seq<byte>, lastPct: int)
      requires Valid() && i < count
      modifies slots
      ensures Valid()
      ensures slots[..count] == old(slots[..count])[i := old(slots[i]).(buffer := buffer, lastPct := lastPct)]
    {
      hide Held;
      HeldSlotData(Now(), i, buffer, lastPct);
      slots[i] := slots[i].(buffer := buffer, lastPct := lastPct);
      assert slots[..count] == old(slots[..count])[i := old(slots[i]).(buffer := buffer, lastPct := lastPct)];
    }

    method DrainChunks()
      requires Valid() && Conserving()
      modifies this`log, slots
      ensures Valid() && Conserving()
      ensures Look() == Drains(old(Look()), count) && old(log) <= log
      ensures old(Tracking()) ==> Tracking()
    {
      hide Held; hide Conserved; hide Handed;
      var i := 0;
      while i < count
        invariant 0 <= i <= count
        invariant Valid() && Conserving()
        invariant Look() == Drains(old(Look()), i) && old(log) <= log && Handed(log) == Handed(old(log))
      {
        if slots[i].live && |slots[i].buffer| > 0 {
          ghost var s := slots[..count];
          ConservedDrain(s, log, got, i);
          HandedFiring(log, Chunk(i, slots[i].buffer));
          log := log + [Chunk(i, slots[i].buffer)];
          SetSlot(i, [], slots[i].lastPct);
          assert slots[..count] == s[i := s[i].(buffer := [])];
        }
        i := i + 1;
      }
    }

    method ReportProgress(pump: Pump)
      requires Valid() && Conserving()
      modifies this`log, slots
      ensures Valid() && Conserving()
      ensures NoChunks(old(log)) ==> NoChunks(log)
      ensures Look() == Reports(old(Look()), pump, count) && old(log) <= log
      ensures old(Tracking()) ==> Tracking()
    {
      hide Held; hide Conserved; hide Handed;
      var i := 0;
      while i < count
        invariant 0 <= i <= count
        invariant Valid() && Conserving()
        invariant NoChunks(old(log)) ==> NoChunks(log)
        invariant Look() == Reports(old(Look()), pump, i) && old(log) <= log && Handed(log) == Handed(old(log))
      {
        if slots[i].live && pump.Percent(i) != slots[i].lastPct {
          ghost var s := slots[..count];
          var pct := pump.Percent(i);
          ConservedProgress(s, log, got, i, pct);
          HandedFiring(log, Progress(i, pct));
          SetSlot(i, slots[i].buffer, pct);
          log := log + [Progress(i, pct)];
          assert slots[..count] == s[i := s[i].(lastPct := pct)];
        }
        i := i + 1;
      }
    }

    /** harvest, and the finished arm it feeds; a handle of no live slot is skipped. */
    method Harvest(easy: nat)
      requires Valid() && Conserving() && Tracking()
      modifies this`log, this`open, slots, books
      ensures Valid() && Conserving() && Tracking()
      ensures NoChunks(old(log)) ==> NoChunks(log)
      ensures Look() == Finishes(old(Look()), easy) && old(log) <= log
      ensures Completes(old(Look()), [easy], Look())
      ensures forall i :: 0 <= i < count && old(slots[i].easy) == Some(easy) ==>
        log == old(log) + [Finished(Response(old(books.next), Some(easy), i, old(slots[i].buffer)))]
    {
      hide Held; hide Conserved; hide Handed; hide Completes;
      HandlesOwned(Now());
      EasiesDiffer(Now());
      FinishesCompletes(Look(), easy);
      ghost var s := slots[..count];
      HolderIs(s, easy, 0);
      assert forall k :: 0 <= k < count ==> s[k] == slots[k];
      var i := 0;
      while i < count
        invariant 0 <= i <= count && s == slots[..count]
        invariant Valid() && Conserving() && Tracking() && Look() == old(Look())
        invariant HolderFrom(s, easy, i) == Holder(s, easy)
      {
        if slots[i].easy == Some(easy) && slots[i].live {
          HarvestSlot(i);
          assert forall j :: 0 <= j < count && s[j].easy == Some(easy) ==> j == i;
          return;
        }
        i := i + 1;
      }
    }

    /** The handle is detached before it changes hands. */
    method TakeOut(h: nat) returns (r: nat)
      requires books.Valid() && h in books.owner
      modifies books
      ensures books.Valid() && r == old(books.next) && books.next == r + 1 && r !in old(books.owner)
      ensures books.attached == old(books.attached) - {h}
      ensures books.owner == old(books.owner)[h := Owner(self, EasyOfResponse(r))][r := Owner(self, ResponseStruct)]
    {
      books.Detach(Some(h));
      r := books.Alloc(self, ResponseStruct);
      books.Transfer(h, Owner(self, EasyOfResponse(r)));
    }

    /** The handle leaves the batch, and the response takes handle and bytes. */
    method HarvestSlot(i: nat)
      requires Valid() && Conserving() && Tracking() && i < count && slots[i].easy.Some? && slots[i].live
      modifies this`log, this`open, slots, books
      ensures Valid() && Conserving() && Tracking()
      ensures var s := old(slots[i]);
        Look() == Snap(old(slots[..count])[i := s.(easy := None, buffer := [], live := false)],
                       old(log) + [Finished(Response(old(books.next), s.easy, i, s.buffer))], old(books.next) + 1)
    {
      hide Held; hide Conserved; hide Handed;
      ghost var s, before := slots[..count], Now();
      LiveIfEasy(before, i);
      var slot := slots[i];
      var r := TakeOut(slot.easy.value);
      HeldHarvested(before, i, r);
      var response := Response(r, slot.easy, i, slot.buffer);
      ConservedFinish(s, log, got, i, response);
      HandedFiring(log, Finished(response));
      slots[i] := slot.(easy := None, buffer := [], live := false);
      open := open[r := response];
      log := log + [Finished(response)];
      assert slots[..count] == s[i := slots[i]];
      assert Now() == Harvested(before, i, r);
    }

    /** After each firing the consumer may close what it holds. */
    method HarvestAll(done: seq<nat>)
      requires Valid() && Conserving() && Tracking()
      modifies this`log, this`open, this`closed, slots, books
      ensures Valid() && Conserving() && Tracking()
      ensures NoChunks(old(log)) ==> NoChunks(log)
      ensures Look() == FinishesAll(old(Look()), done) && old(log) <= log && old(closed) <= closed
    {
      hide Held; hide Conserved; hide Finishes; hide Handed;
      for k := 0 to |done|
        invariant Valid() && Conserving() && Tracking()
        invariant NoChunks(old(log)) ==> NoChunks(log)
        invariant Look() == FinishesAll(old(Look()), done[..k]) && old(log) <= log && old(closed) <= closed
      {
        Harvest(done[k]);
        CloseSome();
        assert done[..k + 1][..k] == done[..k];
      }
      assert done[..|done|] == done;
    }

    /** perform: the write callback runs for each piece that arrived. */
    method Perform(deliveries: seq<(nat, seq<byte>)>)
      requires Valid() && Conserving()
      modifies this`got, slots
      ensures Valid() && Conserving()
      ensures Look() == ReceivesAll(old(Look()), deliveries)
      ensures Takes(old(slots[..count]), old(got), deliveries, got)
    {
      hide Held; hide Conserved; hide Receives; hide Takes;
      GotForEach(slots[..count], log, got);
      TakesNothing(slots[..count], got);
      for k := 0 to |deliveries|
        invariant Valid() && Conserving()
        invariant Look() == ReceivesAll(old(Look()), deliveries[..k])
        invariant Takes(old(slots[..count]), old(got), deliveries[..k], got)
      {
        ghost var s, got1 := slots[..count], got;
        ReceivesKeepEasies(old(Look()), deliveries[..k]);
        Deliver(deliveries[k].0, deliveries[k].1);
        TakesMore(old(slots[..count]), s, old(got), got1, got, deliveries[..k], deliveries[k]);
        assert deliveries[..k + 1] == deliveries[..k] + [deliveries[k]] && deliveries[..k + 1][..k] == deliveries[..k];
      }
      assert deliveries[..|deliveries|] == deliveries;
    }

    /**
     * The body poll and await share: perform, drain to the chunk arm if there is
     * one, report progress, then harvest what the library says is done.
     */
    method Pass(pump: Pump, chunkArm: bool)
      requires Valid() && Conserving() && Tracking()
      modifies this`log, this`open, this`closed, this`got, slots, books
      ensures Valid() && Conserving() && Tracking()
      ensures !chunkArm && NoChunks(old(log)) ==> NoChunks(log)
      ensures Look() == Passes.Passes(old(Look()), pump, chunkArm) && old(log) <= log && old(closed) <= closed
      ensures Takes(old(slots[..count]), old(got), pump.deliveries, got)
      ensures Completes(old(Look()), pump.done, Look())
    {
      hide Held; hide Conserved; hide ReceivesAll; hide Drains; hide Reports; hide FinishesAll; hide Takes; hide Handed;
      hide Completes;
      HandlesOwned(Now());
      PassCompletes(Look(), pump, chunkArm);
      Perform(pump.deliveries);
      if chunkArm {
        DrainChunks();
      }
      ReportProgress(pump);
      HarvestAll(pump.done);
    }

    /** poll borrows the promise. */
    method Poll(pump: Pump, chunkArm: bool) returns (running: bool)
      requires Valid() && Conserving() && Tracking() && pending.Some?
      modifies this`log, this`open, this`closed, this`got, slots, books
      ensures Valid() && Conserving() && Tracking()
      ensures running <==> pump.running > 0
      ensures Look() == Passes.Passes(old(Look()), pump, chunkArm) && old(log) <= log && old(closed) <= closed
      ensures Takes(old(slots[..count]), old(got), pump.deliveries, got)
      ensures Completes(old(Look()), pump.done, Look())
      ensures !chunkArm && NoChunks(old(log)) ==> NoChunks(log)
    {
      Pass(pump, chunkArm);
      return pump.running > 0;
    }

    method DropPromise()
      requires Valid() && pending.Some?
      modifies this`pending, books
      ensures Valid() && pending.None? && books.next == old(books.next)
    {
      hide Held;
      HeldSettled(Now());
      ghost var before := Now();
      books.Release(pending.value);
      pending := None;
      assert Now() == before.(owner := before.owner - {before.pending.value}, pending := None);
    }

    /** finish consumes the promise and hands the batch back. */
    method Finish()
      requires Valid() && pending.Some?
      modifies this`pending, books
      ensures Valid() && pending.None? && Look() == old(Look())
      ensures old(Tracking()) ==> Tracking()
    {
      DropPromise();
    }

    /** await, at its exit: passes until the library reports nothing running. */
    method Await(pumps: seq<Pump>, chunkArm: bool)
      requires Valid() && Conserving() && Tracking() && pending.Some?
      requires |pumps| > 0 && pumps[|pumps| - 1].running == 0
      requires forall k :: 0 <= k < |pumps| - 1 ==> pumps[k].running > 0
      modifies this`log, this`open, this`closed, this`got, this`pending, slots, books
      ensures Valid() && Conserving() && Tracking() && pending.None?
      ensures !chunkArm && NoChunks(old(log)) ==> NoChunks(log)
      ensures Look() == PassesAll(old(Look()), pumps, chunkArm) && old(log) <= log && old(closed) <= closed
      ensures TakesOver(old(Look()), old(got), pumps, chunkArm, got)
      ensures Completes(old(Look()), AllDone(pumps), Look())
    {
      hide Held; hide Conserved; hide Passes.Passes; hide Takes; hide TakesOver; hide Handed; hide Completes;
      HandlesOwned(Now());
      PassesComplete(Look(), pumps, chunkArm);
      GotForEach(slots[..count], log, got);
      TakesOverNothing(Look(), got, chunkArm);
      var running := 1;
      var k := 0;
      while running > 0
        invariant 0 <= k <= |pumps| && (running > 0 <==> k < |pumps|)
        invariant Valid() && Conserving() && Tracking() && pending.Some?
        invariant !chunkArm && NoChunks(old(log)) ==> NoChunks(log)
        invariant Look() == PassesAll(old(Look()), pumps[..k], chunkArm) && old(log) <= log && old(closed) <= closed
        invariant TakesOver(old(Look()), old(got), pumps[..k], chunkArm, got)
        decreases |pumps| - k
      {
        ghost var got1 := got;
        Pass(pumps[k], chunkArm);
        TakesOverPass(old(Look()), old(got), pumps, k, chunkArm, got1, got);
        running := pumps[k].running;
        k := k + 1;
        assert pumps[..k][..k - 1] == pumps[..k - 1];
      }
      assert pumps[..k] == pumps;
      DropPromise();
    }

    /** cancel abandons every live transfer, then consumes the promise. */
    method Cancel()
      requires Valid() && pending.Some?
      modifies this`pending, slots, books
      ensures Valid() && pending.None?
      ensures Look() == Abandons(old(Look()), count)
      ensures old(Tracking()) ==> Tracking()
    {
      hide Held;
      var i := 0;
      while i < count
        invariant 0 <= i <= count
        invariant Valid() && pending.Some?
        invariant Look() == Abandons(old(Look()), i)
      {
        if slots[i].live {
          ghost var before := Now();
          HeldAbandoned(before, i);
          books.Detach(slots[i].easy);
          books.Cleanup(slots[i].easy);
          slots[i] := slots[i].(easy := None, buffer := [], live := false);
          assert slots[..count] == before.slots[i := slots[i]];
          assert Now() == Abandoned(before, i);
        }
        i := i + 1;
      }
      DropPromise();
    }

    /** close of one response: its easy handle, which is detached already, then its struct. */
    method CloseResponse(r: Response)
      requires Shaped() && books.Valid() && r.self in open && open[r.self] == r
      requires Held(Now(), 0) || OnlyResponses(Now())
      modifies this`open, this`closed, books
      ensures Shaped() && books.Valid() && books.next == old(books.next)
      ensures old(Held(Now(), 0)) ==> Held(Now(), 0)
      ensures old(OnlyResponses(Now())) ==> OnlyResponses(Now())
      ensures open == old(open) - {r.self} && closed == old(closed) + {r.self}
      ensures old(Tracking()) ==> Tracking()
    {
      hide Held; hide OnlyResponses; hide Handed;
      OpenKnown(Now(), r.self);
      ghost var before := Now();
      if Held(before, 0) { HeldResponseClosed(before, r.self, 0); }
      if OnlyResponses(before) { OnlyResponsesClosed(before, r.self); }
      books.Cleanup(r.handle);
      books.Release(r.self);
      open := open - {r.self};
      closed := closed + {r.self};
      assert Now() == ResponseClosed(before, r.self);
    }

    method ReleaseSlot(i: nat)
      requires Shaped() && books.Valid() && i < count && Held(Now(), i)
      modifies books
      ensures Shaped() && books.Valid() && books.next == old(books.next)
      ensures Now() == SlotReleased(old(Now()), i)
    {
      hide Held;
      SlotReleasable(Now(), i);
      var s := slots[i];
      ReleaseEasy(s);
      books.Release(s.url);
      books.ReleaseIfAny(s.body);
      books.ReleaseIfAny(s.headers);
    }

    method ReleaseEasy(s: Slot)
      requires books.Valid() && (s.easy.Some? ==> s.live && s.easy.value in books.owner)
      modifies books
      ensures books.Valid() && books.next == old(books.next)
      ensures books.owner == old(books.owner) - IdSet(s.easy) && books.attached == old(books.attached) - IdSet(s.easy)
    {
      if s.live {
        books.Detach(s.easy);
        books.Cleanup(s.easy);
      }
    }

    /** multi.close: every slot's leftovers, then the multi handle and the struct. */
    method Close()
      requires Valid() && pending.None?
      modifies books
      ensures Shaped() && books.Valid() && books.next == old(books.next) && OnlyResponses(Now())
      ensures old(Tracking()) ==> Tracking()
    {
      hide Held; hide OnlyResponses; hide SlotReleased; hide BatchReleased;
      var i := 0;
      while i < count
        invariant 0 <= i <= count && Shaped() && books.Valid() && pending.None?
        invariant Held(Now(), i) && books.next == old(books.next)
        invariant Now().slots == slots[..count]
      {
        HeldSlotReleased(Now(), i);
        ReleaseSlot(i);
        i := i + 1;
      }
      ReleaseStruct();
    }

    method ReleaseStruct()
      requires Shaped() && books.Valid() && pending.None? && Held(Now(), count)
      modifies books
      ensures Shaped() && books.Valid() && books.next == old(books.next) && OnlyResponses(Now())
      ensures old(Tracking()) ==> Tracking()
    {
      hide Held; hide OnlyResponses;
      ghost var last := Now();
      HeldBatchReleased(last);
      books.Cleanup(handle);
      books.Release(self);
      assert Now() == BatchReleased(last);
    }

    /** The consumer closes any of the responses it holds. */
    method CloseSome()
      requires Shaped() && books.Valid()
      requires Held(Now(), 0) || OnlyResponses(Now())
      modifies this`open, this`closed, books
      ensures Shaped() && books.Valid() && books.next == old(books.next)
      ensures old(Held(Now(), 0)) ==> Held(Now(), 0)
      ensures old(OnlyResponses(Now())) ==> OnlyResponses(Now())
      ensures old(closed) <= closed && (old(Tracking()) ==> Tracking())
    {
      hide Held; hide OnlyResponses; hide Handed;
      var more: bool := *;
      while more && |open| > 0
        invariant Shaped() && books.Valid() && books.next == old(books.next)
        invariant Held(Now(), 0) || OnlyResponses(Now())
        invariant old(Held(Now(), 0)) ==> Held(Now(), 0)
        invariant old(OnlyResponses(Now())) ==> OnlyResponses(Now())
        invariant old(closed) <= closed && (old(Tracking()) ==> Tracking())
        decreases |open|
      {
        ghost var some := SomeKey(open);
        var r :| r in open;
        OpenKnown(Now(), r);
        CloseResponse(open[r]);
        more := *;
      }
    }

    /** The consumer closes every response it still holds. */
    method CloseResponses()
      requires Shaped() && books.Valid()
      requires Held(Now(), 0) || OnlyResponses(Now())
      modifies this`open, this`closed, books
      ensures Shaped() && books.Valid() && books.next == old(books.next) && open == map[]
      ensures old(Held(Now(), 0)) ==> Held(Now(), 0)
      ensures old(OnlyResponses(Now())) ==> OnlyResponses(Now())
      ensures old(Tracking()) ==> Tracking()
    {
      hide Held; hide OnlyResponses; hide Handed;
      while |open| > 0
        invariant Shaped() && books.Valid() && books.next == old(books.next)
        invariant Held(Now(), 0) || OnlyResponses(Now())
        invariant old(Held(Now(), 0)) ==> Held(Now(), 0)
        invariant old(OnlyResponses(Now())) ==> OnlyResponses(Now())
        invariant old(Tracking()) ==> Tracking()
        decreases |open|
      {
        ghost var some := SomeKey(open);
        var r :| r in open;
        OpenKnown(Now(), r);
        CloseResponse(open[r]);
      }
    }
  }

  lemma HandlesOwned(w: State)
    requires Held(w, 0)
    ensures OwnHandles(w.slots)
  {
    hide Held;
    EasiesDiffer(w);
    forall i | 0 <= i < |w.slots| && w.slots[i].easy.Some?
      ensures w.slots[i].live
    {
      LiveIfEasy(w, i);
    }
  }

  lemma DeliveredOnce(h: nat, data: seq<byte>)
    ensures forall e: Option<nat> :: DeliveredTo(e, [(h, data)]) == if e == Some(h) then data else []
  {
    forall e: Option<nat>
      ensures DeliveredTo(e, [(h, data)]) == if e == Some(h) then data else []
    {
      DeliveredLast(e, [], (h, data));
    }
  }

  lemma GotForEach(slots: seq<Slot>, log: seq<Firing>, got: seq<seq<byte>>)
    requires Conserved(slots, log, got)
    ensures |got| == |slots|
  {
  }

  /** What a finished transfer handed out is everything it took. */
  lemma FinishedIsAll(slots: seq<Slot>, log: seq<Firing>, got: seq<seq<byte>>)
    requires Conserved(slots, log, got)
    ensures forall i :: 0 <= i < |slots| && FinishedBody(log, i).Some? ==>
      i < |got| && got[i] == Chunked(log, i) + FinishedBody(log, i).value
  {
    hide FinishedBody; hide Chunked; hide ReportsChanges; hide LastPercent;
    forall i | 0 <= i < |slots| && FinishedBody(log, i).Some?
      ensures i < |got| && got[i] == Chunked(log, i) + FinishedBody(log, i).value
    {
      assert ConservedAt(slots[i], log, got[i], i);
    }
  }

  lemma SomeKey<T, U>(m: map<T, U>) returns (k: T)
    requires |m| > 0
    ensures k in m
  {
    assert |m.Keys| > 0;
    k :| k in m.Keys;
  }

  /** multi.add and multi.add.post, any number of times. */
  method AddAll(m: Batch, adds: seq<Adding>)
    requires m.Valid() && m.Conserving() && m.Tracking()
    modifies m`count, m`got, m.slots, m.books
    ensures m.Valid() && m.Conserving() && m.Tracking()
    ensures m.Look() == AddsAll(old(m.Look()), adds)
    ensures forall i :: 0 <= i < |m.got| ==> m.got[i] == if i < |old(m.got)| then old(m.got)[i] else []
  {
    hide Held; hide Conserved; hide Adds; hide Handed;
    for k := 0 to |adds|
      invariant m.Valid() && m.Conserving() && m.Tracking()
      invariant m.Look() == AddsAll(old(m.Look()), adds[..k])
      invariant |m.got| >= |old(m.got)|
      invariant forall i :: 0 <= i < |m.got| ==> m.got[i] == if i < |old(m.got)| then old(m.got)[i] else []
    {
      assert adds[..k + 1][..k] == adds[..k];
      match adds[k]
      case Get(easyOk) => m.Add(easyOk);
      case Post(easyOk, headerCount) => m.AddPost(easyOk, headerCount);
    }
    assert adds[..|adds|] == adds;
  }

  /** poll, any number of times; between the passes the consumer may close what it holds. */
  method PollAll(m: Batch, polls: seq<Pump>, chunkArm: bool)
    requires m.Valid() && m.Conserving() && m.Tracking() && m.pending.Some?
    modifies m`log, m`open, m`closed, m`got, m.slots, m.books
    ensures m.Valid() && m.Conserving() && m.Tracking()
    ensures !chunkArm && NoChunks(old(m.log)) ==> NoChunks(m.log)
    ensures m.Look() == PassesAll(old(m.Look()), polls, chunkArm)
    ensures TakesOver(old(m.Look()), old(m.got), polls, chunkArm, m.got)
  {
    hide Held; hide OnlyResponses; hide Conserved; hide Passes.Passes; hide NoChunks; hide Takes; hide TakesOver;
    hide Handed;
    GotForEach(m.slots[..m.count], m.log, m.got);
    TakesOverNothing(m.Look(), m.got, chunkArm);
    for k := 0 to |polls|
      invariant m.Valid() && m.Conserving() && m.Tracking()
      invariant !chunkArm && NoChunks(old(m.log)) ==> NoChunks(m.log)
      invariant m.Look() == PassesAll(old(m.Look()), polls[..k], chunkArm)
      invariant TakesOver(old(m.Look()), old(m.got), polls[..k], chunkArm, m.got)
    {
      ghost var got1 := m.got;
      m.CloseSome();
      var running := m.Poll(polls[k], chunkArm);
      TakesOverPass(old(m.Look()), old(m.got), polls, k, chunkArm, got1, m.got);
      assert polls[..k + 1][..k] == polls[..k];
    }
    assert polls[..|polls|] == polls;
  }

  /** The promise is consumed in one of the three ways. */
  method End(m: Batch, ending: Ending, chunkArm: bool)
    requires m.Valid() && m.Conserving() && m.Tracking() && m.pending.Some? && ending.Possible()
    modifies m`log, m`open, m`closed, m`got, m`pending, m.slots, m.books
    ensures m.Valid() && m.Tracking() && m.pending.None?
    ensures !ending.Cancelling? ==> m.Conserving()
    ensures !chunkArm && NoChunks(old(m.log)) ==> NoChunks(m.log)
    ensures m.Look() == Ends(old(m.Look()), ending, chunkArm)
    ensures TakesOver(old(m.Look()), old(m.got), ending.Pumps(), chunkArm, m.got)
    ensures forall i :: 0 <= i < m.count && FinishedBody(m.log, i).Some? ==>
      i < |m.got| && m.got[i] == Chunked(m.log, i) + FinishedBody(m.log, i).value
  {
    hide Held; hide Conserved; hide Passes.Passes; hide Ends; hide NoChunks; hide TakesOver; hide Handed;
    hide FinishedBody; hide Chunked;
    EndsIs(m.Look(), ending, chunkArm);
    GotForEach(m.slots[..m.count], m.log, m.got);
    FinishedIsAll(m.slots[..m.count], m.log, m.got);
    TakesOverNothing(m.Look(), m.got, chunkArm);
    match ending {
      case Finishing => m.Finish();
      case Cancelling => m.Cancel();
      case Awaiting(pumps) =>
        m.Await(pumps, chunkArm);
        FinishedIsAll(m.slots[..m.count], m.log, m.got);
    }
  }

  /**
   * From the promise to the end: polls, one of the three endings, close. Every
   * transfer that finished handed out exactly what the library delivered to it.
   */
  method RunStarted(m: Batch, polls: seq<Pump>, chunkArm: bool, ending: Ending)
    requires m.Valid() && m.Conserving() && m.Tracking() && m.pending.Some? && ending.Possible()
    requires forall i :: 0 <= i < |m.got| ==> m.got[i] == []
    requires NoneFinished(m.Look())
    modifies m, m.slots, m.books
    ensures m.Shaped() && m.books.owner == map[] && m.books.attached == {}
    ensures m.Tracking() && m.open == map[]
    ensures !ending.Cancelling? ==> m.Conserving()
    ensures !chunkArm && NoChunks(old(m.log)) ==> NoChunks(m.log)
    ensures m.Look() == Ends(PassesAll(old(m.Look()), polls, chunkArm), ending, chunkArm)
    ensures TakesOver(old(m.Look()), old(m.got), polls + ending.Pumps(), chunkArm, m.got)
    ensures AllHandedOut(old(m.Look()), polls + ending.Pumps(), chunkArm, m.log)
    ensures FinishedAre(old(m.Look()), polls + ending.Pumps(), m.log)
  {
    hide Held; hide OnlyResponses; hide Conserved; hide PassesAll; hide Ends; hide NoChunks; hide Handed;
    hide FinishedBody; hide Chunked; hide Received; hide FinishedAre; hide NoneFinished;
    HandlesOwned(m.Now());
    EndsFinish(m.Look(), polls, chunkArm, ending);
    PollAll(m, polls, chunkArm);
    ghost var got1 := m.got;
    m.CloseSome();
    End(m, ending, chunkArm);
    TakesOverAppend(old(m.Look()), polls, ending.Pumps(), chunkArm, old(m.got), got1, m.got);
    m.CloseSome();
    m.Close();
    m.CloseResponses();
    NothingLeft(m.Now());
  }

  /**
   * Any legal run: add at least once, start, poll any number of times, end in any of
   * the three ways, close; responses are closed at any time. Everything is released,
   * each thing once, exactly if curl_multi_init succeeded: a failed start leaves the
   * batch allocated with nothing that could release it. And no byte is lost, made up
   * or given to another transfer: what a finished transfer handed out, chunk by chunk
   * and then in its body, is what the library delivered to its handle.
   */
  method RunBatch(books: Books, initOk: bool, adds: seq<Adding>, polls: seq<Pump>, chunkArm: bool, ending: Ending)
      returns (m: Batch)
    requires books.Valid() && books.owner == map[] && adds != [] && ending.Possible()
    modifies books
    ensures books.owner == map[] <==> initOk
    ensures initOk ==> books.attached == {}
    ensures m.Shaped()
    ensures initOk ==> m.Tracking() && m.open == map[]
    ensures initOk && !ending.Cancelling? ==> m.Conserving()
    ensures !chunkArm ==> NoChunks(m.log)
    ensures initOk ==> m.Look() == Passes.Runs(old(books.next) + 2, adds, polls, chunkArm, ending)
    ensures initOk ==>
      var start := Begins(old(books.next) + 2, adds);
      |m.got| == |start.slots|
      && (forall i :: 0 <= i < |m.got| ==> m.got[i] == Received(start, polls + ending.Pumps(), chunkArm, i))
      && AllHandedOut(start, polls + ending.Pumps(), chunkArm, m.log)
      && FinishedAre(start, polls + ending.Pumps(), m.log)
      && |start.slots| == if |adds| < 32 then |adds| else 32
  {
    hide Held; hide OnlyResponses; hide Conserved; hide Adds; hide PassesAll; hide Passes.Starts; hide Ends;
    hide Handed;
    hide Received; hide AllHandedOut; hide FinishedAre; hide NoneFinished; hide Placed; hide OwnHandles;
    BeginsSays(books.next + 2, adds);
    m := new Batch(books, initOk);
    AddAll(m, adds);
    var started := m.Start();
    if !started {
      StructHeld(m.Now());
      return;
    }
    RunStarted(m, polls, chunkArm, ending);
  }

  lemma EndsIs(s: Snap, ending: Ending, chunkArm: bool)
    ensures Ends(s, ending, chunkArm) ==
      match ending
      case Finishing => s
      case Cancelling => Abandons(s, |s.slots|)
      case Awaiting(pumps) => PassesAll(s, pumps, chunkArm)
  {
  }
}
