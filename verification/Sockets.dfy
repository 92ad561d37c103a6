/** A connected socket: the peer's remaining bytes, delivered in pieces of any size. */
module Sockets {
  import opened Wrappers

  class Socket {
    /** What the peer will still send before it closes. */
    var pending: seq<byte>

    constructor (stream: seq<byte>)
      ensures pending == stream
    {
      pending := stream;
    }

    /** A receive returns some of the next bytes, at most n; only at the end it returns none. */
    method Recv(n: nat) returns (chunk: seq<byte>)
      requires n > 0
      modifies this
      ensures chunk + pending == old(pending)
      ensures |chunk| <= n
      ensures chunk == [] <==> old(pending) == []
    {
      if pending == [] { return []; }
      var k :| 1 <= k <= n && k <= |pending|;
      chunk := pending[..k];
      pending := pending[k..];
    }

    /** recv_exact: exactly n bytes, or nothing when the stream ends first. */
    method RecvExact(n: nat) returns (got: Option<seq<byte>>)
      modifies this
      ensures got == TakeExact(old(pending), n).0
      ensures pending == TakeExact(old(pending), n).1
    {
      var buf := [];
      while |buf| < n
        invariant buf + pending == old(pending) && |buf| <= n
        decreases n - |buf|
      {
        var chunk := Recv(n - |buf|);
        if |chunk| == 0 {
          assert buf + [] == buf;
          return None;
        }
        assert buf + (chunk + pending) == buf + chunk + pending;
        buf := buf + chunk;
      }
      assert old(pending)[..n] == buf && old(pending)[n..] == pending;
      return Some(buf);
    }
  }

  /** The first n bytes and the rest, or everything lost when there are not that many. */
  function TakeExact(s: seq<byte>, n: nat): (Option<seq<byte>>, seq<byte>) {
    if |s| >= n then (Some(s[..n]), s[n..]) else (None, [])
  }

  predicate StandsAt(s: seq<byte>, pat: seq<byte>, i: nat) {
    i + |pat| <= |s| && s[i..i + |pat|] == pat
  }

  /** The first place a pattern stands in s. */
  function Find(s: seq<byte>, pat: seq<byte>): (r: Option<nat>)
    ensures r.Some? ==> StandsAt(s, pat, r.value) && forall i :: 0 <= i < r.value ==> !StandsAt(s, pat, i)
    ensures r.None? ==> forall i :: 0 <= i ==> !StandsAt(s, pat, i)
  {
    FindFrom(s, pat, 0)
  }

  function FindFrom(s: seq<byte>, pat: seq<byte>, i: nat): (r: Option<nat>)
    ensures r.Some? ==> i <= r.value && StandsAt(s, pat, r.value)
    ensures r.Some? ==> forall j :: i <= j < r.value ==> !StandsAt(s, pat, j)
    ensures r.None? ==> forall j :: i <= j ==> !StandsAt(s, pat, j)
    decreases |s| - i
  {
    if StandsAt(s, pat, i) then Some(i)
    else if i >= |s| then None
    else FindFrom(s, pat, i + 1)
  }

  /** The first place is the only one with the pattern there and nowhere earlier. */
  lemma FindIs(s: seq<byte>, pat: seq<byte>, i: nat)
    requires StandsAt(s, pat, i) && forall j :: 0 <= j < i ==> !StandsAt(s, pat, j)
    ensures Find(s, pat) == Some(i)
  {
  }

  /** A place found in what has arrived is the place found in the whole stream. */
  lemma FindInPrefix(a: seq<byte>, b: seq<byte>, pat: seq<byte>)
    requires Find(a, pat).Some?
    ensures Find(a + b, pat) == Find(a, pat)
  {
    var i := Find(a, pat).value;
    forall j | 0 <= j <= i
      ensures StandsAt(a + b, pat, j) <==> StandsAt(a, pat, j)
    {
      assert j + |pat| <= |a| && (a + b)[j..j + |pat|] == a[j..j + |pat|];
    }
    FindIs(a + b, pat, i);
  }
}
