/** The head of a response, and the body of declared length behind it. */
module Bodies {
  import opened Wrappers
  import opened Sockets
  import opened Chunked
  import opened Arrivals

  const HEAD_END: seq<byte> := CRLF + CRLF

  // ---- the head before the body ----

  /**
   * read_head: the head is determined by the stream, no byte after it is lost, and
   * less than one receive of what follows it is there already.
   */
  method ReadHead(sock: Socket) returns (head: seq<byte>, rest: seq<byte>, ghost ps: seq<seq<byte>>)
    modifies sock
    ensures match Find(old(sock.pending), HEAD_END)
            case Some(i) => head == old(sock.pending)[..i] && rest + sock.pending == old(sock.pending)[i + 4..]
            case None => head == old(sock.pending) && rest == [] && sock.pending == []
    ensures |rest| < HEAD_PIECE
    ensures Flat(ps) + sock.pending == old(sock.pending) && Deliverable(ps, HEAD_PIECE)
    ensures Find(old(sock.pending), HEAD_END).Some? ==> rest == RestAfterHead(ps)
  {
    hide LeadsTo; hide Flat; hide Find;
    assert [] + sock.pending == sock.pending;
    var found, buf;
    found, buf, ps := NeedPattern(sock, [], HEAD_END, HEAD_PIECE);
    BufferAfter(ps, buf);
    var s := buf + sock.pending;
    if !found {
      assert s == buf;
      return buf, [], ps;
    }
    FindInPrefix(buf, sock.pending, HEAD_END);
    FillOvershoot([], ps, HEAD_END, HEAD_PIECE);
    var i := Find(buf, HEAD_END).value;
    assert |HEAD_END| == 4;
    assert s[..i] == buf[..i];
    assert s[i + 4..] == buf[i + 4..] + sock.pending;
    return buf[..i], buf[i + 4..], ps;
  }

  lemma BufferAfter(ps: seq<seq<byte>>, buf: seq<byte>)
    requires LeadsTo([], ps, HEAD_END, buf)
    ensures FillTo([], ps, HEAD_END) == Filled(Find(buf, HEAD_END).Some?, buf, [])
  {
    hide Find; hide Flat;
    assert ps + [] == ps;
  }

  /** What is there of the body when a head that arrived in pieces was read. */
  function RestAfterHead(ps: seq<seq<byte>>): seq<byte> {
    var f := FillTo([], ps, HEAD_END);
    if f.ok then f.buf[Find(f.buf, HEAD_END).value + 4..] else []
  }

  // ---- bodies of declared length ----

  /** read_body under a Content-Length: what came with the head, plus the missing bytes if all arrive. */
  function LengthBody(rest: seq<byte>, pending: seq<byte>, length: nat): seq<byte> {
    var missing := if length > |rest| then length - |rest| else 0;
    rest + match TakeExact(pending, missing).0 case Some(extra) => extra case None => []
  }

  /** The body is the same wherever, within one receive of the head, the stream was cut. */
  ghost predicate SameBody(s: seq<byte>, length: nat) {
    forall i, j :: 0 <= i <= |s| && i < HEAD_PIECE && 0 <= j <= |s| && j < HEAD_PIECE ==>
      LengthBody(s[..i], s[i..], length) == LengthBody(s[..j], s[j..], length)
  }

  /** A body cut at i: all that was declared or was there already, if the stream has it; else what was there. */
  lemma LengthBodyIs(s: seq<byte>, i: nat, length: nat)
    requires i <= |s|
    ensures LengthBody(s[..i], s[i..], length)
         == if length > |s| then s[..i] else if length > i then s[..length] else s[..i]
  {
    if i < length <= |s| {
      assert s[i..][..length - i] == s[i..length];
      assert s[..i] + s[i..length] == s[..length];
    }
  }

  /**
   * That is so exactly when the stream is as long as declared, or empty, or longer
   * than declared with more declared than can come with the head: else a longer one
   * keeps what came with the head, and a shorter one loses what came after it.
   */
  lemma SameBodyIff(s: seq<byte>, length: nat)
    ensures SameBody(s, length) <==> |s| == length || s == [] || HEAD_PIECE - 1 <= length <= |s|
  {
    hide LengthBody;
    if |s| == length || s == [] || HEAD_PIECE - 1 <= length <= |s| {
      forall i, j | 0 <= i <= |s| && i < HEAD_PIECE && 0 <= j <= |s| && j < HEAD_PIECE
        ensures LengthBody(s[..i], s[i..], length) == LengthBody(s[..j], s[j..], length)
      {
        LengthBodyIs(s, i, length);
        LengthBodyIs(s, j, length);
      }
    } else {
      var most := if |s| < HEAD_PIECE then |s| else HEAD_PIECE - 1;
      LengthBodyIs(s, 0, length);
      LengthBodyIs(s, most, length);
    }
  }

  /** The body of a response whose head and body arrive in pieces. */
  function BodyOf(ps: seq<seq<byte>>, length: nat): seq<byte> {
    LengthBody(RestAfterHead(ps), Flat(FillTo([], ps, HEAD_END).rest), length)
  }

  /** The body does not depend on the pieces a whole response arrives in. */
  ghost predicate IndependentBody(t: seq<byte>, length: nat) {
    forall ps, qs :: Arrives(t, [], ps, HEAD_PIECE) && Arrives(t, [], qs, HEAD_PIECE) ==>
      BodyOf(ps, length) == BodyOf(qs, length)
  }

  /** Whatever the pieces, the body was cut somewhere within one receive of the head. */
  lemma CutSomewhere(t: seq<byte>, ps: seq<seq<byte>>, length: nat) returns (i: nat)
    requires Find(t, HEAD_END).Some? && Arrives(t, [], ps, HEAD_PIECE)
    ensures var s := t[Find(t, HEAD_END).value + 4..];
      (i <= |s| && i < HEAD_PIECE && BodyOf(ps, length) == LengthBody(s[..i], s[i..], length))
  {
    hide Find; hide Flat; hide LengthBody;
    var f := FillTo([], ps, HEAD_END);
    assert [] + Flat(ps) == Flat(ps);
    HeadReceived(t, f);
    FillOvershoot([], ps, HEAD_END, HEAD_PIECE);
    var n := Find(t, HEAD_END).value + 4;
    i := |f.buf| - n;
    assert t[n..][..i] == f.buf[n..] && t[n..][i..] == Flat(f.rest);
  }

  lemma HeadReceived(t: seq<byte>, f: Filled)
    requires f.buf + Flat(f.rest) == t && (f.ok <==> Find(f.buf, HEAD_END).Some?) && (!f.ok ==> f.rest == [])
    requires Find(t, HEAD_END).Some?
    ensures f.ok && Find(f.buf, HEAD_END) == Find(t, HEAD_END) && Find(t, HEAD_END).value + 4 <= |f.buf|
  {
    FlatNothing();
    assert f.rest == [] ==> f.buf + Flat(f.rest) == f.buf;
    FindInPrefix(f.buf, Flat(f.rest), HEAD_END);
    assert |HEAD_END| == 4;
  }

  /** And every such cut comes about. */
  lemma CutAnywhere(t: seq<byte>, i: nat, length: nat) returns (ps: seq<seq<byte>>)
    requires Find(t, HEAD_END).Some? && Find(t, HEAD_END).value + 4 + i <= |t| && i < HEAD_PIECE
    ensures Arrives(t, [], ps, HEAD_PIECE)
    ensures var s := t[Find(t, HEAD_END).value + 4..]; (BodyOf(ps, length) == LengthBody(s[..i], s[i..], length))
  {
    hide Find; hide Flat; hide LengthBody; hide FillTo; hide Deliverable;
    assert |HEAD_END| == 4;
    ps := Overshoots(t, HEAD_END, i, HEAD_PIECE);
    var n := Find(t, HEAD_END).value + 4;
    PatternInFirst(t, HEAD_END, n + i);
    SinglesFlat(t[n + i..]);
    assert t[..n + i][n..] == t[n..][..i] && t[n..][i..] == t[n + i..];
  }

  /** The two together: for a whole response, over every way it can arrive. */
  lemma LengthBodyIndependentIff(t: seq<byte>, length: nat)
    requires Find(t, HEAD_END).Some?
    ensures var s := t[Find(t, HEAD_END).value + 4..];
      IndependentBody(t, length) <==> |s| == length || s == [] || HEAD_PIECE - 1 <= length <= |s|
  {
    hide Find; hide LengthBody; hide BodyOf; hide Arrives;
    var s := t[Find(t, HEAD_END).value + 4..];
    SameBodyIff(s, length);
    if SameBody(s, length) {
      forall ps, qs | Arrives(t, [], ps, HEAD_PIECE) && Arrives(t, [], qs, HEAD_PIECE)
        ensures BodyOf(ps, length) == BodyOf(qs, length)
      {
        var i := CutSomewhere(t, ps, length);
        var j := CutSomewhere(t, qs, length);
      }
    }
    if IndependentBody(t, length) {
      forall i, j | 0 <= i <= |s| && i < HEAD_PIECE && 0 <= j <= |s| && j < HEAD_PIECE
        ensures LengthBody(s[..i], s[i..], length) == LengthBody(s[..j], s[j..], length)
      {
        var ps := CutAnywhere(t, i, length);
        var qs := CutAnywhere(t, j, length);
      }
    }
  }
}
