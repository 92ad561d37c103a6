/**
 * The state of one batch of transfers as a value: its slots, what it has allocated,
 * what is attached, and the responses it handed out; with the step each operation makes.
 */
module BatchState {
  import opened Wrappers
  import opened Ledger

  const MAX_TRANSFERS: nat := 32

  datatype Slot = Slot(
    easy: Option<nat>,
    buffer: seq<byte>,
    url: nat,
    body: Option<nat>,
    headers: Option<nat>,
    live: bool,
    lastPct: int)

  /** A finished transfer handed out: its struct, its detached easy handle, its bytes. */
  datatype Response = Response(self: nat, handle: Option<nat>, index: nat, body: seq<byte>)

  datatype State = State(
    owner: map<nat, Owner>,
    attached: set<nat>,
    self: nat,
    handle: Option<nat>,
    pending: Option<nat>,
    slots: seq<Slot>,
    open: map<nat, Response>)

  ghost predicate Mine(w: State, id: nat, kind: Kind) {
    id in w.owner && w.owner[id] == Owner(w.self, kind)
  }

  ghost predicate MineOrNull(w: State, id: Option<nat>, kind: Kind) {
    id.Some? ==> Mine(w, id.value, kind)
  }

  /** A slot holds its url, and whatever else it has; only a live slot has an attached easy handle. */
  ghost predicate SlotHolds(w: State, i: nat)
    requires i < |w.slots|
  {
    var s := w.slots[i];
    && Mine(w, s.url, UrlOf(i))
    && MineOrNull(w, s.body, BodyOf(i))
    && MineOrNull(w, s.headers, HeadersOf(i))
    && MineOrNull(w, s.easy, EasyOf(i))
    && (s.easy.Some? ==> s.live && s.easy.value in w.attached)
  }

  ghost predicate ResponseHolds(w: State, r: nat)
    requires r in w.open
  {
    && w.open[r].self == r
    && Mine(w, r, ResponseStruct)
    && MineOrNull(w, w.open[r].handle, EasyOfResponse(r))
  }

  /** Whatever is allocated, some place of the batch holds it. */
  ghost predicate Accounted(w: State, from: nat, id: nat)
    requires id in w.owner
  {
    w.owner[id].root == w.self &&
      match w.owner[id].kind
      case MultiStruct => id == w.self
      case MultiHandle => w.handle == Some(id)
      case PendingStruct => w.pending == Some(id)
      case EasyOf(i) => from <= i < |w.slots| && w.slots[i].easy == Some(id)
      case UrlOf(i) => from <= i < |w.slots| && w.slots[i].url == id
      case BodyOf(i) => from <= i < |w.slots| && w.slots[i].body == Some(id)
      case HeadersOf(i) => from <= i < |w.slots| && w.slots[i].headers == Some(id)
      case ResponseStruct => id in w.open
      case EasyOfResponse(r) => r in w.open && w.open[r].handle == Some(id)
  }

  /** Only easy handles still in a slot are attached. */
  ghost predicate AttachedInSlot(w: State, h: nat) {
    h in w.owner && w.owner[h].kind.EasyOf?
  }

  /** The batch holds exactly what is allocated for it; slots below `from` are released. */
  ghost predicate Held(w: State, from: nat) {
    && |w.slots| <= MAX_TRANSFERS
    && Mine(w, w.self, MultiStruct)
    && MineOrNull(w, w.handle, MultiHandle)
    && MineOrNull(w, w.pending, PendingStruct)
    && (forall i :: from <= i < |w.slots| ==> SlotHolds(w, i))
    && (forall r :: r in w.open ==> ResponseHolds(w, r))
    && (forall id :: id in w.owner ==> Accounted(w, from, id))
    && (forall h :: h in w.attached ==> AttachedInSlot(w, h))
  }

  // ---- the steps ----

  function Tag(owner: map<nat, Owner>, id: Option<nat>, root: nat, kind: Kind): map<nat, Owner> {
    if id.Some? then owner[id.value := Owner(root, kind)] else owner
  }

  /** A new live slot with freshly allocated resources. */
  function Added(w: State, easy: Option<nat>, url: nat, body: Option<nat>, headers: Option<nat>): State {
    var i := |w.slots|;
    var o1 := Tag(w.owner, easy, w.self, EasyOf(i));
    var o2 := Tag(o1, Some(url), w.self, UrlOf(i));
    var o3 := Tag(o2, body, w.self, BodyOf(i));
    var o4 := Tag(o3, headers, w.self, HeadersOf(i));
    w.(owner := o4, attached := w.attached + IdSet(easy),
       slots := w.slots + [Slot(easy, [], url, body, headers, true, -1)])
  }

  ghost predicate FreshIds(w: State, ids: seq<Option<nat>>) {
    && (forall i :: 0 <= i < |ids| && ids[i].Some? ==> ids[i].value !in w.owner)
    && (forall i, j :: 0 <= i < j < |ids| && ids[i].Some? && ids[j].Some? ==> ids[i].value != ids[j].value)
  }

  /** Adding keeps every earlier tag and tags exactly the fresh ids. */
  lemma FreshFour(w: State, easy: Option<nat>, url: nat, body: nat, headers: Option<nat>, next: nat)
    requires forall id :: id in w.owner ==> id < next
    requires (easy.Some? ==> next <= easy.value < url) && next <= url < body && (headers.Some? ==> body < headers.value)
    ensures FreshIds(w, [easy, Some(url), Some(body), headers])
  {
  }

  lemma AddedTags(w: State, easy: Option<nat>, url: nat, body: Option<nat>, headers: Option<nat>)
    requires FreshIds(w, [easy, Some(url), body, headers])
    ensures var v, i := Added(w, easy, url, body, headers), |w.slots|;
            && (forall id :: id in w.owner ==> id in v.owner && v.owner[id] == w.owner[id])
            && (forall id :: id in v.owner && id !in w.owner ==>
                  (easy == Some(id) && v.owner[id].kind == EasyOf(i)) || (id == url && v.owner[id].kind == UrlOf(i)) ||
                  (body == Some(id) && v.owner[id].kind == BodyOf(i)) ||
                  (headers == Some(id) && v.owner[id].kind == HeadersOf(i)))
            && Mine(v, url, UrlOf(i)) && MineOrNull(v, easy, EasyOf(i))
            && MineOrNull(v, body, BodyOf(i)) && MineOrNull(v, headers, HeadersOf(i))
  {
    var ids := [easy, Some(url), body, headers];
    assert ids[0] == easy && ids[1] == Some(url) && ids[2] == body && ids[3] == headers;
  }

  lemma HeldAdded(w: State, easy: Option<nat>, url: nat, body: Option<nat>, headers: Option<nat>)
    requires Held(w, 0) && |w.slots| < MAX_TRANSFERS
    requires FreshIds(w, [easy, Some(url), body, headers])
    ensures Held(Added(w, easy, url, body, headers), 0)
  {
    hide FreshIds; hide Tag; hide SlotHolds; hide ResponseHolds; hide Accounted; hide AttachedInSlot;
    var v := Added(w, easy, url, body, headers);
    AddedTags(w, easy, url, body, headers);
    forall i | 0 <= i < |v.slots|
      ensures SlotHolds(v, i)
    {
      AddedSlot(w, easy, url, body, headers, i);
    }
    forall r | r in v.open
      ensures ResponseHolds(v, r)
    {
      AddedResponse(w, easy, url, body, headers, r);
    }
    forall id | id in v.owner
      ensures Accounted(v, 0, id)
    {
      AddedAccounts(w, easy, url, body, headers, id);
    }
    forall h | h in v.attached
      ensures AttachedInSlot(v, h)
    {
      AddedAttached(w, easy, url, body, headers, h);
    }
  }

  lemma AddedSlot(w: State, easy: Option<nat>, url: nat, body: Option<nat>, headers: Option<nat>, i: nat)
    requires Held(w, 0) && FreshIds(w, [easy, Some(url), body, headers])
      && i < |Added(w, easy, url, body, headers).slots|
    ensures SlotHolds(Added(w, easy, url, body, headers), i)
  {
    hide FreshIds; hide Tag;
    AddedTags(w, easy, url, body, headers);
    if i < |w.slots| {
      assert SlotHolds(w, i);
    }
  }

  lemma AddedResponse(w: State, easy: Option<nat>, url: nat, body: Option<nat>, headers: Option<nat>, r: nat)
    requires Held(w, 0) && FreshIds(w, [easy, Some(url), body, headers]) && r in w.open
    ensures ResponseHolds(Added(w, easy, url, body, headers), r)
  {
    hide FreshIds; hide Tag;
    AddedTags(w, easy, url, body, headers);
    assert ResponseHolds(w, r);
  }

  lemma AddedAccounts(w: State, easy: Option<nat>, url: nat, body: Option<nat>, headers: Option<nat>, id: nat)
    requires Held(w, 0) && FreshIds(w, [easy, Some(url), body, headers])
      && id in Added(w, easy, url, body, headers).owner
    ensures Accounted(Added(w, easy, url, body, headers), 0, id)
  {
    hide FreshIds; hide Tag;
    AddedTags(w, easy, url, body, headers);
    if id in w.owner {
      assert Accounted(w, 0, id);
    }
  }

  lemma AddedAttached(w: State, easy: Option<nat>, url: nat, body: Option<nat>, headers: Option<nat>, h: nat)
    requires Held(w, 0) && FreshIds(w, [easy, Some(url), body, headers])
      && h in Added(w, easy, url, body, headers).attached
    ensures AttachedInSlot(Added(w, easy, url, body, headers), h)
  {
    hide FreshIds; hide Tag;
    AddedTags(w, easy, url, body, headers);
    if h in w.attached {
      assert AttachedInSlot(w, h);
    }
  }

  /** What is buffered and reported does not concern who holds what. */
  lemma HeldSlotData(w: State, i: nat, buffer: seq<byte>, lastPct: int)
    requires Held(w, 0) && i < |w.slots|
    ensures Held(w.(slots := w.slots[i := w.slots[i].(buffer := buffer, lastPct := lastPct)]), 0)
  {
    var v := w.(slots := w.slots[i := w.slots[i].(buffer := buffer, lastPct := lastPct)]);
    forall j | 0 <= j < |v.slots|
      ensures SlotHolds(v, j)
    {
      assert SlotHolds(w, j);
    }
    forall r | r in v.open
      ensures ResponseHolds(v, r)
    {
      assert ResponseHolds(w, r);
    }
    forall id | id in v.owner
      ensures Accounted(v, 0, id)
    {
      assert Accounted(w, 0, id);
    }
    forall h | h in v.attached
      ensures AttachedInSlot(v, h)
    {
      assert AttachedInSlot(w, h);
    }
  }

  lemma LiveIfEasy(w: State, i: nat)
    requires Held(w, 0) && i < |w.slots| && w.slots[i].easy.Some?
    ensures w.slots[i].live && w.slots[i].easy.value in w.owner
  {
    assert SlotHolds(w, i);
  }

  /** No handle sits in two slots. */
  lemma EasiesDiffer(w: State)
    requires Held(w, 0)
    ensures forall i, j :: 0 <= i < j < |w.slots| && w.slots[i].easy.Some? ==> w.slots[i].easy != w.slots[j].easy
  {
    forall i, j | 0 <= i < j < |w.slots| && w.slots[i].easy.Some?
      ensures w.slots[i].easy != w.slots[j].easy
    {
      assert SlotHolds(w, i) && SlotHolds(w, j);
    }
  }

  /** multi.start allocates the promise. */
  lemma HeldPending(w: State, p: nat)
    requires Held(w, 0) && w.pending.None? && p !in w.owner
    ensures Held(w.(owner := w.owner[p := Owner(w.self, PendingStruct)], pending := Some(p)), 0)
  {
    var v := w.(owner := w.owner[p := Owner(w.self, PendingStruct)], pending := Some(p));
    forall j | 0 <= j < |v.slots|
      ensures SlotHolds(v, j)
    {
      assert SlotHolds(w, j);
    }
    forall r | r in v.open
      ensures ResponseHolds(v, r)
    {
      assert ResponseHolds(w, r);
    }
    forall id | id in v.owner
      ensures Accounted(v, 0, id)
    {
      if id != p {
        assert Accounted(w, 0, id);
      }
    }
    forall h | h in v.attached
      ensures AttachedInSlot(v, h)
    {
      assert AttachedInSlot(w, h);
    }
  }

  /** finish, await and cancel release it. */
  lemma HeldSettled(w: State)
    requires Held(w, 0) && w.pending.Some?
    ensures Held(w.(owner := w.owner - {w.pending.value}, pending := None), 0)
    ensures w.pending.value in w.owner && w.pending.value !in w.attached
  {
    var v := w.(owner := w.owner - {w.pending.value}, pending := None);
    forall j | 0 <= j < |v.slots|
      ensures SlotHolds(v, j)
    {
      assert SlotHolds(w, j);
    }
    forall r | r in v.open
      ensures ResponseHolds(v, r)
    {
      assert ResponseHolds(w, r);
    }
    forall id | id in v.owner
      ensures Accounted(v, 0, id)
    {
      assert Accounted(w, 0, id);
    }
    forall h | h in w.attached
      ensures AttachedInSlot(w, h) && h != w.pending.value
    {
    }
    forall h | h in v.attached
      ensures AttachedInSlot(v, h)
    {
      assert AttachedInSlot(w, h);
    }
  }

  lemma OpenAreOwned(w: State, from: nat)
    requires Held(w, from)
    ensures forall r :: r in w.open ==> r in w.owner
  {
    forall r | r in w.open
      ensures r in w.owner
    {
      assert ResponseHolds(w, r);
    }
  }

  /** harvest: the easy handle is detached and moves, with the bytes, into a new response. */
  function Harvested(w: State, i: nat, r: nat): State
    requires i < |w.slots| && w.slots[i].easy.Some?
  {
    var s := w.slots[i];
    var h := s.easy.value;
    w.(owner := w.owner[h := Owner(w.self, EasyOfResponse(r))][r := Owner(w.self, ResponseStruct)],
       attached := w.attached - {h},
       slots := w.slots[i := s.(easy := None, buffer := [], live := false)],
       open := w.open[r := Response(r, Some(h), i, s.buffer)])
  }

  lemma HeldHarvested(w: State, i: nat, r: nat)
    requires Held(w, 0) && i < |w.slots| && w.slots[i].easy.Some? && r !in w.owner
    ensures Held(Harvested(w, i, r), 0)
  {
    hide SlotHolds; hide ResponseHolds; hide Accounted; hide AttachedInSlot;
    var v := Harvested(w, i, r);
    HarvestedOwners(w, i, r);
    forall j | 0 <= j < |v.slots|
      ensures SlotHolds(v, j)
    {
      HarvestedSlot(w, i, r, j);
    }
    forall q | q in v.open
      ensures ResponseHolds(v, q)
    {
      HarvestedResponse(w, i, r, q);
    }
    forall id | id in v.owner
      ensures Accounted(v, 0, id)
    {
      HarvestedAccounts(w, i, r, id);
    }
    forall k | k in v.attached
      ensures AttachedInSlot(v, k)
    {
      HarvestedAttached(w, i, r, k);
    }
  }

  lemma HarvestedOwners(w: State, i: nat, r: nat)
    requires Held(w, 0) && i < |w.slots| && w.slots[i].easy.Some? && r !in w.owner
    ensures var v, h := Harvested(w, i, r), w.slots[i].easy.value;
      h in w.owner && w.owner[h] == Owner(w.self, EasyOf(i)) && Mine(v, v.self, MultiStruct)
      && MineOrNull(v, v.handle, MultiHandle) && MineOrNull(v, v.pending, PendingStruct)
  {
    assert SlotHolds(w, i);
  }

  lemma HarvestedSlot(w: State, i: nat, r: nat, j: nat)
    requires Held(w, 0) && i < |w.slots| && w.slots[i].easy.Some? && r !in w.owner && j < |w.slots|
    ensures SlotHolds(Harvested(w, i, r), j)
  {
    assert SlotHolds(w, i) && SlotHolds(w, j);
  }

  lemma HarvestedResponse(w: State, i: nat, r: nat, q: nat)
    requires Held(w, 0) && i < |w.slots| && w.slots[i].easy.Some? && r !in w.owner && q in Harvested(w, i, r).open
    ensures ResponseHolds(Harvested(w, i, r), q)
  {
    assert SlotHolds(w, i);
    if q != r {
      assert ResponseHolds(w, q);
    }
  }

  lemma HarvestedAccounts(w: State, i: nat, r: nat, id: nat)
    requires Held(w, 0) && i < |w.slots| && w.slots[i].easy.Some? && r !in w.owner && id in Harvested(w, i, r).owner
    ensures Accounted(Harvested(w, i, r), 0, id)
  {
    OpenAreOwned(w, 0);
    if id in w.owner {
      assert Accounted(w, 0, id);
    }
  }

  lemma HarvestedAttached(w: State, i: nat, r: nat, k: nat)
    requires Held(w, 0) && i < |w.slots| && w.slots[i].easy.Some? && r !in w.owner && k in Harvested(w, i, r).attached
    ensures AttachedInSlot(Harvested(w, i, r), k)
  {
    assert AttachedInSlot(w, k);
  }

  /** close: an open response gives back its easy handle and its struct. */
  function ResponseClosed(w: State, r: nat): State
    requires r in w.open
  {
    w.(owner := w.owner - IdSet(w.open[r].handle) - {r}, open := w.open - {r})
  }

  lemma HeldResponseClosed(w: State, r: nat, from: nat)
    requires Held(w, from) && r in w.open
    ensures Held(ResponseClosed(w, r), from)
    ensures r in w.owner && r !in w.attached
    ensures w.open[r].handle.Some? ==>
              w.open[r].handle.value in w.owner && w.open[r].handle.value !in w.attached && w.open[r].handle.value != r
  {
    var v := ResponseClosed(w, r);
    assert ResponseHolds(w, r);
    forall j | from <= j < |v.slots|
      ensures SlotHolds(v, j)
    {
      assert SlotHolds(w, j);
    }
    forall q | q in v.open
      ensures ResponseHolds(v, q)
    {
      assert ResponseHolds(w, q);
    }
    forall id | id in v.owner
      ensures Accounted(v, from, id)
    {
      assert Accounted(w, from, id);
    }
    forall k | k in w.attached
      ensures AttachedInSlot(w, k)
    {
    }
    forall k | k in v.attached
      ensures AttachedInSlot(v, k)
    {
      assert AttachedInSlot(w, k);
    }
  }

  /** cancel, for one live slot. */
  function Abandoned(w: State, i: nat): State
    requires i < |w.slots|
  {
    var s := w.slots[i];
    w.(owner := w.owner - IdSet(s.easy), attached := w.attached - IdSet(s.easy),
       slots := w.slots[i := s.(easy := None, buffer := [], live := false)])
  }

  lemma HeldAbandoned(w: State, i: nat)
    requires Held(w, 0) && i < |w.slots|
    ensures Held(Abandoned(w, i), 0)
    ensures w.slots[i].easy.Some? ==> w.slots[i].easy.value in w.owner
  {
    var v := Abandoned(w, i);
    assert SlotHolds(w, i);
    forall j | 0 <= j < |v.slots|
      ensures SlotHolds(v, j)
    {
      assert SlotHolds(w, j);
    }
    forall q | q in v.open
      ensures ResponseHolds(v, q)
    {
      assert ResponseHolds(w, q);
    }
    forall id | id in v.owner
      ensures Accounted(v, 0, id)
    {
      assert Accounted(w, 0, id);
    }
    forall k | k in v.attached
      ensures AttachedInSlot(v, k)
    {
      assert AttachedInSlot(w, k);
    }
  }

  /** multi.close, for one slot: all the slot still holds is released. */
  function SlotReleased(w: State, i: nat): State
    requires i < |w.slots|
  {
    var s := w.slots[i];
    w.(owner := w.owner - IdSet(s.easy) - {s.url} - IdSet(s.body) - IdSet(s.headers),
       attached := w.attached - IdSet(s.easy))
  }

  /** What a slot holds besides its easy handle is allocated and never attached. */
  lemma SlotReleasable(w: State, i: nat)
    requires Held(w, i) && i < |w.slots|
    ensures SlotHolds(w, i)
    ensures w.slots[i].url !in w.attached
    ensures w.slots[i].body.Some? ==> w.slots[i].body.value !in w.attached
    ensures w.slots[i].headers.Some? ==> w.slots[i].headers.value !in w.attached
  {
    assert SlotHolds(w, i);
    forall k | k in w.attached
      ensures AttachedInSlot(w, k)
    {
    }
  }

  lemma HeldSlotReleased(w: State, i: nat)
    requires Held(w, i) && i < |w.slots|
    ensures Held(SlotReleased(w, i), i + 1)
  {
    hide Accounted;
    var v := SlotReleased(w, i);
    assert SlotHolds(w, i);
    forall j | i + 1 <= j < |v.slots|
      ensures SlotHolds(v, j)
    {
      SlotReleasedKeeps(w, i, j);
    }
    forall q | q in v.open
      ensures ResponseHolds(v, q)
    {
      assert ResponseHolds(w, q);
    }
    forall id | id in v.owner
      ensures Accounted(v, i + 1, id)
    {
      SlotReleasedAccounts(w, i, id);
    }
    forall k | k in v.attached
      ensures AttachedInSlot(v, k)
    {
      assert AttachedInSlot(w, k);
    }
  }

  lemma SlotReleasedKeeps(w: State, i: nat, j: nat)
    requires Held(w, i) && i < j < |w.slots|
    ensures SlotHolds(SlotReleased(w, i), j)
  {
    assert SlotHolds(w, i) && SlotHolds(w, j);
  }

  lemma SlotReleasedAccounts(w: State, i: nat, id: nat)
    requires Held(w, i) && i < |w.slots| && id in SlotReleased(w, i).owner
    ensures Accounted(SlotReleased(w, i), i + 1, id)
  {
    assert Accounted(w, i, id);
  }

  // ---- the end ----

  /** Once the slots, the promise, the handle and the struct are gone, only open responses are left. */
  ghost predicate OnlyResponses(w: State) {
    && (forall r :: r in w.open ==> ResponseHolds(w, r))
    && (forall id :: id in w.owner ==>
          match w.owner[id].kind
          case ResponseStruct => id in w.open
          case EasyOfResponse(r) => r in w.open && w.open[r].handle == Some(id)
          case _ => false)
    && w.attached == {}
  }

  function BatchReleased(w: State): State {
    w.(owner := w.owner - IdSet(w.handle) - {w.self})
  }

  lemma HeldBatchReleased(w: State)
    requires Held(w, |w.slots|) && w.pending.None?
    ensures OnlyResponses(BatchReleased(w))
    ensures w.self in w.owner && w.self !in w.attached
    ensures w.handle.Some? ==> w.handle.value in w.owner && w.handle.value !in w.attached && w.handle.value != w.self
  {
    var v := BatchReleased(w);
    forall r | r in v.open
      ensures ResponseHolds(v, r)
    {
      assert ResponseHolds(w, r);
    }
    assert forall id :: id in v.owner ==> Accounted(w, |w.slots|, id);
    AttachedAreInSlots(w, |w.slots|);
    assert w.attached == {};
  }

  lemma AttachedAreInSlots(w: State, from: nat)
    requires Held(w, from)
    ensures forall h :: h in w.attached ==> from < |w.slots|
  {
    forall h | h in w.attached
      ensures from < |w.slots|
    {
      assert AttachedInSlot(w, h) && Accounted(w, from, h);
    }
  }

  lemma OnlyResponsesClosed(w: State, r: nat)
    requires OnlyResponses(w) && r in w.open
    ensures OnlyResponses(ResponseClosed(w, r))
    ensures r in w.owner && r !in w.attached
    ensures w.open[r].handle.Some? ==>
              w.open[r].handle.value in w.owner && w.open[r].handle.value !in w.attached && w.open[r].handle.value != r
  {
    var v := ResponseClosed(w, r);
    assert ResponseHolds(w, r);
    forall q | q in v.open
      ensures ResponseHolds(v, q)
    {
      assert ResponseHolds(w, q);
    }
  }

  lemma OpenKnown(w: State, r: nat)
    requires r in w.open && (Held(w, 0) || OnlyResponses(w))
    ensures w.open[r].self == r
  {
    assert ResponseHolds(w, r);
  }

  lemma StructHeld(w: State)
    requires Held(w, 0)
    ensures w.self in w.owner
  {
  }

  /** A batch with no open response left holds nothing at all. */
  lemma NothingLeft(w: State)
    requires OnlyResponses(w) && w.open == map[]
    ensures w.owner == map[] && w.attached == {}
  {
  }
}
