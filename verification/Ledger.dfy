/**
 * What the transfer code must give back: every allocation and library handle, by the
 * one place that holds it, and which easy handles are attached to a multi handle.
 */
module Ledger {
  import opened Wrappers

  /** The places that can hold a resource of the batch rooted at `root`. */
  datatype Kind =
    | MultiStruct
    | MultiHandle
    | PendingStruct
    | EasyOf(slot: nat)
    | UrlOf(slot: nat)
    | BodyOf(slot: nat)
    | HeadersOf(slot: nat)
    | ResponseStruct
    | EasyOfResponse(response: nat)

  datatype Owner = Owner(root: nat, kind: Kind)

  function IdSet(id: Option<nat>): set<nat> {
    if id.Some? then {id.value} else {}
  }

  class Books {
    /** Everything allocated and not yet released. */
    ghost var owner: map<nat, Owner>
    ghost var attached: set<nat>
    var next: nat

    ghost predicate Valid()
      reads this
    {
      (forall id :: id in owner ==> id < next) && (forall h :: h in attached ==> h in owner)
    }

    constructor ()
      ensures Valid() && owner == map[] && attached == {}
    {
      owner, attached, next := map[], {}, 0;
    }

    method Alloc(ghost root: nat, ghost kind: Kind) returns (id: nat)
      requires Valid()
      modifies this
      ensures Valid() && id == old(next) && id !in old(owner)
      ensures owner == old(owner)[id := Owner(root, kind)] && attached == old(attached)
      ensures next == id + 1
    {
      id := next;
      next := next + 1;
      owner := owner[id := Owner(root, kind)];
    }

    /** Releasing twice, or something never allocated, is what the precondition forbids. */
    method Release(id: nat)
      requires Valid() && id in owner && id !in attached
      modifies this
      ensures Valid()
      ensures owner == old(owner) - {id} && attached == old(attached) && next == old(next)
    {
      owner := owner - {id};
    }

    /** curl_easy_cleanup: a null handle is ignored, an attached one corrupts the multi. */
    method Cleanup(h: Option<nat>)
      requires Valid() && (h.Some? ==> h.value in owner && h.value !in attached)
      modifies this
      ensures Valid()
      ensures owner == old(owner) - IdSet(h)
      ensures attached == old(attached) && next == old(next)
    {
      ReleaseIfAny(h);
    }

    method ReleaseIfAny(id: Option<nat>)
      requires Valid() && (id.Some? ==> id.value in owner && id.value !in attached)
      modifies this
      ensures Valid()
      ensures owner == old(owner) - IdSet(id)
      ensures attached == old(attached) && next == old(next)
    {
      if id.Some? { Release(id.value); }
    }

    method Attach(h: Option<nat>)
      requires Valid() && (h.Some? ==> h.value in owner)
      modifies this
      ensures Valid()
      ensures attached == old(attached) + IdSet(h)
      ensures owner == old(owner) && next == old(next)
    {
      if h.Some? { attached := attached + {h.value}; }
    }

    method Detach(h: Option<nat>)
      requires Valid()
      modifies this
      ensures Valid()
      ensures attached == old(attached) - IdSet(h)
      ensures owner == old(owner) && next == old(next)
    {
      if h.Some? { attached := attached - {h.value}; }
    }

    /** A resource changes hands without being released. */
    ghost method Transfer(id: nat, to: Owner)
      requires Valid() && id in owner
      modifies this
      ensures Valid()
      ensures owner == old(owner)[id := to] && attached == old(attached) && next == old(next)
    {
      owner := owner[id := to];
    }
  }
}
