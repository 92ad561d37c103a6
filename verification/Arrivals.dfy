/** When the pieces a chunked body arrives in do not matter, and when they do. */
module Arrivals {
  import opened Wrappers
  import opened Sockets
  import opened Chunked

  /** Without negative sizes, decoding pieces is decoding their concatenation. */
  lemma {:induction false} PiecesDontMatter(buf: seq<byte>, ps: seq<seq<byte>>, out: seq<byte>, limit: Option<int>)
    requires Dechunk(buf + Flat(ps), out, limit) != Err(NegativeSize)
    ensures DecodePieces(buf, ps, out, limit) == Dechunk(buf + Flat(ps), out, limit)
    decreases |buf + Flat(ps)|
  {
    hide Find; hide ChunkSize; hide Dechunk; hide AfterLine; hide TakeTo; hide PyDrop; hide Flat; hide FillTo;
    hide FillN;
    var f := FillTo(buf, ps, CRLF);
    if !f.ok {
      FlatNothing();
      assert f.buf + [] == f.buf;
      NoLineLeft(f.buf, out, limit);
    } else {
      var eol := Find(f.buf, CRLF).value;
      var size := ChunkSize(f.buf[..eol]);
      LineInBuffer(f.buf, Flat(f.rest), out, limit);
      LineCases(size, f.buf[eol + 2..] + Flat(f.rest), out, limit);
      if size.Some? && size.value != 0 {
        var g := FillN(f.buf[eol + 2..], f.rest, size.value + 2);
        FlatNothing();
        StreamRound(f.buf, Flat(f.rest), out, limit, g.buf, Flat(g.rest));
        var more := out + TakeTo(g.buf, size.value);
        if g.ok && (limit.None? || |more| < limit.value) {
          PiecesDontMatter(PyDrop(g.buf, size.value + 2), g.rest, more, limit);
        }
      }
    }
  }

  lemma FlatNothing()
    ensures Flat([]) == []
  {
  }

  // ---- which buffers a receive loop can end with ----

  /** A stream with first already received and the rest to come in pieces of at most `most` bytes. */
  ghost predicate Arrives(s: seq<byte>, first: seq<byte>, ps: seq<seq<byte>>, most: nat) {
    first + Flat(ps) == s && Deliverable(ps, most)
  }

  function Singles(s: seq<byte>): (ps: seq<seq<byte>>)
    ensures |ps| == |s|
  {
    seq(|s|, i requires 0 <= i < |s| => [s[i]])
  }

  lemma {:induction false} SinglesFlat(s: seq<byte>)
    ensures Flat(Singles(s)) == s
    decreases |s|
  {
    if s != [] {
      assert Singles(s)[1..] == Singles(s[1..]);
      SinglesFlat(s[1..]);
    }
  }

  lemma FindNoneInPrefix(a: seq<byte>, b: seq<byte>, pat: seq<byte>)
    requires Find(a + b, pat).None?
    ensures Find(a, pat).None?
  {
    if Find(a, pat).Some? {
      FindInPrefix(a, b, pat);
    }
  }

  /** Bytes without the pattern only fill the buffer. */
  lemma {:induction false} FillSingles(buf: seq<byte>, x: seq<byte>, more: seq<seq<byte>>, pat: seq<byte>)
    requires Find(buf + x, pat).None?
    ensures FillTo(buf, Singles(x) + more, pat) == FillTo(buf + x, more, pat)
    decreases |x|
  {
    hide Find; hide Flat;
    if x == [] {
      assert buf + x == buf && Singles(x) + more == more;
    } else {
      FindNoneInPrefix(buf, x, pat);
      assert Singles(x)[1..] == Singles(x[1..]);
      assert (Singles(x) + more)[0] == [x[0]] && (Singles(x) + more)[1..] == Singles(x[1..]) + more;
      assert buf + [x[0]] + x[1..] == buf + x;
      FillSingles(buf + [x[0]], x[1..], more, pat);
    }
  }

  /** A loop that waits for a pattern overshoots it by less than one piece. */
  lemma {:induction false} FillOvershoot(buf: seq<byte>, ps: seq<seq<byte>>, pat: seq<byte>, most: nat)
    requires Deliverable(ps, most) && most > 0
    ensures var f := FillTo(buf, ps, pat);
      f.ok ==> |f.buf| <= |buf| || |f.buf| < Find(f.buf, pat).value + |pat| + most
    decreases |ps|
  {
    hide Flat;
    if Find(buf, pat).None? && ps != [] {
      assert forall i :: 0 <= i < |ps[1..]| ==> ps[1..][i] == ps[i + 1];
      FillOvershoot(buf + ps[0], ps[1..], pat, most);
      var f := FillTo(buf + ps[0], ps[1..], pat);
      if f.ok && |f.buf| <= |buf + ps[0]| {
        FoundAcross(buf, ps[0], ps[1..], pat);
      }
    }
  }

  lemma StandsInPrefix(a: seq<byte>, b: seq<byte>, pat: seq<byte>, i: nat)
    requires i + |pat| <= |a| && StandsAt(a + b, pat, i)
    ensures StandsAt(a, pat, i)
  {
    assert (a + b)[i..i + |pat|] == a[i..i + |pat|];
  }

  /** A pattern that came with a piece ends in that piece. */
  lemma FoundAcross(buf: seq<byte>, piece: seq<byte>, rest: seq<seq<byte>>, pat: seq<byte>)
    requires Find(buf, pat).None?
    ensures var f := FillTo(buf + piece, rest, pat);
      f.ok && |f.buf| <= |buf + piece| ==> Find(f.buf, pat).value + |pat| > |buf|
  {
    hide Flat;
    var f := FillTo(buf + piece, rest, pat);
    FillExtends(buf + piece, rest, pat);
    if f.ok && |f.buf| <= |buf + piece| {
      var v := Find(f.buf, pat).value;
      assert f.buf == buf + piece;
      if v + |pat| <= |buf| {
        StandsInPrefix(buf, piece, pat, v);
      }
    }
  }

  lemma {:induction false} FillExtends(buf: seq<byte>, ps: seq<seq<byte>>, pat: seq<byte>)
    ensures buf <= FillTo(buf, ps, pat).buf
    ensures forall most :: Deliverable(ps, most) ==> Deliverable(FillTo(buf, ps, pat).rest, most)
    decreases |ps|
  {
    hide Flat; hide Find;
    if Find(buf, pat).None? && ps != [] {
      FillExtends(buf + ps[0], ps[1..], pat);
      assert forall i :: 0 <= i < |ps[1..]| ==> ps[1..][i] == ps[i + 1];
    }
  }

  /** And every overshoot shorter than a piece happens: the pattern's last byte comes together with what follows it. */
  lemma Overshoots(s: seq<byte>, pat: seq<byte>, j: nat, most: nat) returns (ps: seq<seq<byte>>)
    requires pat != [] && Find(s, pat).Some? && Find(s, pat).value + |pat| + j <= |s| && j < most
    ensures Arrives(s, [], ps, most)
    ensures var n := Find(s, pat).value + |pat| + j;
      FillTo([], ps, pat) == Filled(true, s[..n], Singles(s[n..]))
  {
    hide Find; hide Flat; hide FillTo; hide Singles;
    var e := Find(s, pat).value + |pat|;
    var before, piece, after := s[..e - 1], s[e - 1..e + j], s[e + j..];
    ps := Singles(before) + ([piece] + Singles(after));
    ThreeParts(s, e - 1, e + j);
    OnePieceArrives(before, piece, after, most);
    NotYet(s, pat);
    FillSingles([], before, [piece] + Singles(after), pat);
    PatternInFirst(s, pat, e + j);
    FillOnePiece(before, piece, Singles(after), pat);
  }

  lemma ThreeParts(s: seq<byte>, i: nat, j: nat)
    requires i <= j <= |s|
    ensures s[..i] + (s[i..j] + s[j..]) == s && s[..i] + s[i..j] == s[..j] && [] + s[..i] == s[..i]
  {
  }

  lemma OnePieceArrives(before: seq<byte>, piece: seq<byte>, after: seq<byte>, most: nat)
    requires 0 < |piece| <= most
    ensures Arrives(before + (piece + after), [], Singles(before) + ([piece] + Singles(after)), most)
  {
    hide Flat;
    SinglesFlat(before);
    SinglesFlat(after);
    FlatPiece(piece, Singles(after));
    FlatAppend(Singles(before), [piece] + Singles(after));
    assert [] + (before + (piece + after)) == before + (piece + after);
  }

  lemma FlatPiece(piece: seq<byte>, rest: seq<seq<byte>>)
    ensures Flat([piece] + rest) == piece + Flat(rest)
  {
    assert ([piece] + rest)[1..] == rest;
  }

  /** Before its last byte came, the pattern is not there. */
  lemma NotYet(s: seq<byte>, pat: seq<byte>)
    requires pat != [] && Find(s, pat).Some?
    ensures Find(s[..Find(s, pat).value + |pat| - 1], pat).None?
  {
    var n := Find(s, pat).value + |pat| - 1;
    assert s[..n] + s[n..] == s;
    if Find(s[..n], pat).Some? {
      FindInPrefix(s[..n], s[n..], pat);
    }
  }

  lemma PatternInFirst(s: seq<byte>, pat: seq<byte>, n: nat)
    requires Find(s, pat).Some? && Find(s, pat).value + |pat| <= n <= |s|
    ensures Find(s[..n], pat) == Find(s, pat)
  {
    var v := Find(s, pat).value;
    assert s[..n][v..v + |pat|] == s[v..v + |pat|];
    assert StandsAt(s[..n], pat, v);
    FindInPrefix(s[..n], s[n..], pat);
    assert s[..n] + s[n..] == s;
  }

  lemma FillOnePiece(buf: seq<byte>, piece: seq<byte>, rest: seq<seq<byte>>, pat: seq<byte>)
    requires Find(buf, pat).None? && Find(buf + piece, pat).Some?
    ensures FillTo(buf, [piece] + rest, pat) == Filled(true, buf + piece, rest)
  {
    hide Find; hide Flat;
    assert ([piece] + rest)[1..] == rest;
  }

  // ---- a negative size ----

  /** What is left of the received data b when it is cut at -k, and then at the limit. */
  function CutBack(b: seq<byte>, k: int, limit: Option<int>): seq<byte> {
    var t := TakeTo(b, -k);
    if limit.Some? && |t| >= limit.value then TakeTo(t, limit.value) else t
  }

  /** The stream begins with a line of size -k, and no further line follows. */
  predicate NegativeFirst(s: seq<byte>, k: int) {
    var eol := Find(s, CRLF);
    k > 0 && eol.Some? && ChunkSize(s[..eol.value]) == Some(-k) && Find(s[eol.value + 2..], CRLF).None?
  }

  function AfterFirstLine(s: seq<byte>): seq<byte>
    requires Find(s, CRLF).Some?
  {
    s[Find(s, CRLF).value + 2..]
  }

  lemma NoLineInTail(s: seq<byte>, i: nat)
    requires Find(s, CRLF).None? && i <= |s|
    ensures Find(s[i..], CRLF).None?
  {
    if Find(s[i..], CRLF).Some? {
      var j := Find(s[i..], CRLF).value;
      assert s[i..][j..j + 2] == s[i + j..i + j + 2];
      assert StandsAt(s, CRLF, i + j);
    }
  }

  /** A negative slice keeps a tail of the buffer. */
  lemma DropKeepsTail(b: seq<byte>, k: int) returns (i: nat)
    requires k > 0 && |b| >= 2 - k
    ensures i <= |b| && PyDrop(b, 2 - k) == b[i..]
  {
    i := if k <= 2 then 2 - k else if k - 2 <= |b| then |b| - (k - 2) else 0;
  }

  /** Decoding goes wrong once and then ends: the body is a cut of what had been received by then. */
  lemma NegativeOnce(s: seq<byte>, k: int, first: seq<byte>, ps: seq<seq<byte>>, limit: Option<int>) returns (j: nat)
    requires NegativeFirst(s, k) && first + Flat(ps) == s
    ensures j <= |AfterFirstLine(s)|
    ensures DecodePieces(first, ps, [], limit) == Ok(CutBack(AfterFirstLine(s)[..j], k, limit))
    ensures var f := FillTo(first, ps, CRLF);
      (f.ok && Find(f.buf, CRLF) == Find(s, CRLF) && j == |FillN(f.buf[Find(s, CRLF).value + 2..], f.rest, 2 - k).buf|)
  {
    hide Find; hide ChunkSize; hide Flat; hide FillTo; hide FillN; hide DecodePieces; hide TakeTo; hide PyDrop;
    var eol, data := Find(s, CRLF).value, AfterFirstLine(s);
    var f := FillTo(first, ps, CRLF);
    LineReceived(s, f);
    var g := FillN(f.buf[eol + 2..], f.rest, 2 - k);
    assert f.buf[eol + 2..] + Flat(f.rest) == data by { assert s[eol + 2..] == f.buf[eol + 2..] + Flat(f.rest); }
    j := |g.buf|;
    assert data[..j] == g.buf;
    DecodeFrom(first, ps, [], limit);
    EmptyCut(g.buf, k);
    CutOfNothing(k, limit);
    assert [] + g.buf == g.buf;
    if g.ok {
      var t := TakeTo(g.buf, -k);
      assert [] + t == t;
      AfterNegative(g, data, k, limit);
    }
  }

  /** What is left holds no line, so nothing more is decoded. */
  lemma AfterNegative(g: Filled, data: seq<byte>, k: int, limit: Option<int>)
    requires g.buf + Flat(g.rest) == data && Find(data, CRLF).None? && k > 0 && |g.buf| >= 2 - k
    ensures DecodePieces(PyDrop(g.buf, 2 - k), g.rest, TakeTo(g.buf, -k), limit) == Ok(TakeTo(g.buf, -k))
  {
    hide Find; hide DecodePieces; hide Flat; hide TakeTo; hide PyDrop;
    var i := DropKeepsTail(g.buf, k);
    assert g.buf[i..] + Flat(g.rest) == data[i..];
    NoLineInTail(data, i);
    NoMoreLines(PyDrop(g.buf, 2 - k), g.rest, TakeTo(g.buf, -k), limit);
  }

  /** The buffer that holds a line holds the first line of the stream. */
  lemma LineReceived(s: seq<byte>, f: Filled)
    requires f.buf + Flat(f.rest) == s && (f.ok <==> Find(f.buf, CRLF).Some?) && (!f.ok ==> f.rest == [])
    requires Find(s, CRLF).Some?
    ensures f.ok && Find(f.buf, CRLF) == Find(s, CRLF) && Find(s, CRLF).value + 2 <= |f.buf|
    ensures f.buf[..Find(s, CRLF).value] == s[..Find(s, CRLF).value]
  {
    FlatNothing();
    assert f.rest == [] ==> f.buf + Flat(f.rest) == f.buf;
    FindInPrefix(f.buf, Flat(f.rest), CRLF);
  }

  lemma NoMoreLines(buf: seq<byte>, ps: seq<seq<byte>>, out: seq<byte>, limit: Option<int>)
    requires Find(buf + Flat(ps), CRLF).None?
    ensures DecodePieces(buf, ps, out, limit) == Ok(out)
  {
    hide Find; hide ChunkSize; hide FillTo; hide FillN; hide Flat;
    var f := FillTo(buf, ps, CRLF);
    if f.ok {
      FindInPrefix(f.buf, Flat(f.rest), CRLF);
    }
  }

  /** Fewer bytes than are wanted are none. */
  lemma EmptyCut(b: seq<byte>, k: int)
    requires k > 0
    ensures |b| < 2 - k ==> b == [] && TakeTo(b, -k) == []
    ensures |b| <= k ==> TakeTo(b, -k) == []
    ensures |b| > k ==> TakeTo(b, -k) == b[..|b| - k] && TakeTo(b, -k) != []
  {
  }

  lemma CutOfNothing(k: int, limit: Option<int>)
    requires k > 0
    ensures CutBack([], k, limit) == []
  {
  }

  /** The body does not depend on how the stream arrives, whatever was received before the call. */
  ghost predicate Independent(s: seq<byte>, limit: Option<int>) {
    forall first, ps, first', ps' :: Arrives(s, first, ps, PIECE) && Arrives(s, first', ps', PIECE) ==>
      DecodePieces(first, ps, [], limit) == DecodePieces(first', ps', [], limit)
  }

  /** The same for a body that begins in what was left after a head. */
  ghost predicate IndependentAfterHead(s: seq<byte>, limit: Option<int>) {
    forall first, ps, first', ps' ::
      Arrives(s, first, ps, PIECE) && |first| < HEAD_PIECE &&
      Arrives(s, first', ps', PIECE) && |first'| < HEAD_PIECE ==>
        DecodePieces(first, ps, [], limit) == DecodePieces(first', ps', [], limit)
  }

  /** The first receive that completes the line brings j bytes more, and then the rest comes byte by byte. */
  lemma CutAt(s: seq<byte>, k: int, j: nat, limit: Option<int>) returns (ps: seq<seq<byte>>)
    requires NegativeFirst(s, k) && j <= |AfterFirstLine(s)| && 2 - k <= j < PIECE
    ensures Arrives(s, [], ps, PIECE)
    ensures DecodePieces([], ps, [], limit) == Ok(CutBack(AfterFirstLine(s)[..j], k, limit))
  {
    hide Find; hide ChunkSize; hide Flat; hide DecodePieces; hide CutBack; hide Deliverable; hide FillTo;
    ps := Overshoots(s, CRLF, j, PIECE);
    var i := NegativeOnce(s, k, [], ps, limit);
    var n := Find(s, CRLF).value + 2;
    assert s[..n + j][n..] == AfterFirstLine(s)[..j];
  }

  /** The whole stream was there before the call. */
  lemma CutAtEnd(s: seq<byte>, k: int, limit: Option<int>)
    requires NegativeFirst(s, k)
    ensures Arrives(s, s, [], PIECE)
    ensures DecodePieces(s, [], [], limit) == Ok(CutBack(AfterFirstLine(s), k, limit))
  {
    hide Find; hide ChunkSize; hide DecodePieces; hide CutBack;
    FlatNothing();
    assert s + [] == s;
    var j := NegativeOnce(s, k, s, [], limit);
    var data := AfterFirstLine(s);
    assert data[..|data|] == data;
  }

  /**
   * After a first size of -k, with no further line, the body depends on the arrival
   * exactly when more than k bytes follow the line: with k or fewer the slice leaves
   * nothing however they come.
   */
  lemma NegativeIndependentIff(s: seq<byte>, k: int, limit: Option<int>)
    requires NegativeFirst(s, k) && (limit.Some? ==> limit.value >= 0)
    ensures Independent(s, limit) <==> |AfterFirstLine(s)| <= k || limit == Some(0)
  {
    hide DecodePieces; hide Find; hide ChunkSize; hide TakeTo; hide Flat; hide Deliverable;
    var data := AfterFirstLine(s);
    if |data| <= k || limit == Some(0) {
      forall first, ps, first', ps' | Arrives(s, first, ps, PIECE) && Arrives(s, first', ps', PIECE)
        ensures DecodePieces(first, ps, [], limit) == DecodePieces(first', ps', [], limit)
      {
        var i := NegativeOnce(s, k, first, ps, limit);
        var j := NegativeOnce(s, k, first', ps', limit);
        CutToNothing(data[..i], k, limit);
        CutToNothing(data[..j], k, limit);
      }
    } else {
      CutAtEnd(s, k, limit);
      CutToSomething(data, k, limit);
      var ps := CutAt(s, k, 1, limit);
      CutToNothing(data[..1], k, limit);
    }
  }

  /**
   * After a head, when at most 4095 bytes are there before the call, a size of -65535
   * or less leaves nothing either: one receive cannot bring that much behind the line.
   */
  lemma NegativeAfterHeadIff(s: seq<byte>, k: int, limit: Option<int>)
    requires NegativeFirst(s, k) && (limit.Some? ==> limit.value >= 0)
    ensures IndependentAfterHead(s, limit) <==> |AfterFirstLine(s)| <= k || limit == Some(0) || k >= PIECE - 1
  {
    hide DecodePieces; hide Find; hide ChunkSize; hide TakeTo; hide Flat; hide Deliverable; hide CutBack;
    var data := AfterFirstLine(s);
    if |data| <= k || limit == Some(0) || k >= PIECE - 1 {
      forall first, ps, first', ps' |
        Arrives(s, first, ps, PIECE) && |first| < HEAD_PIECE && Arrives(s, first', ps', PIECE) && |first'| < HEAD_PIECE
        ensures DecodePieces(first, ps, [], limit) == DecodePieces(first', ps', [], limit)
      {
        CutAfterHead(s, k, first, ps, limit);
        CutAfterHead(s, k, first', ps', limit);
      }
    } else {
      var ps := CutAt(s, k, k + 1, limit);
      CutToSomething(data[..k + 1], k, limit);
      var qs := CutAt(s, k, 1, limit);
      CutToNothing(data[..1], k, limit);
    }
  }

  lemma CutAfterHead(s: seq<byte>, k: int, first: seq<byte>, ps: seq<seq<byte>>, limit: Option<int>)
    requires NegativeFirst(s, k) && (limit.Some? ==> limit.value >= 0)
    requires Arrives(s, first, ps, PIECE) && |first| < HEAD_PIECE
    requires |AfterFirstLine(s)| <= k || limit == Some(0) || k >= PIECE - 1
    ensures DecodePieces(first, ps, [], limit) == Ok([])
  {
    hide DecodePieces; hide Find; hide ChunkSize; hide TakeTo; hide Flat; hide Deliverable; hide FillTo; hide CutBack;
    var j := NegativeOnce(s, k, first, ps, limit);
    FillOvershoot(first, ps, CRLF, PIECE);
    CutToNothing(AfterFirstLine(s)[..j], k, limit);
  }

  // ---- a negative size that is skipped ----

  /**
   * When at most k - 2 bytes follow the line, whatever they are and whatever lines they
   * hold, the size is as if it were not there: the slices neither take nor drop a byte.
   */
  lemma NegativeSkippedIff(s: seq<byte>, k: int, limit: Option<int>)
    requires Find(s, CRLF).Some? && ChunkSize(s[..Find(s, CRLF).value]) == Some(-k)
    requires k >= 2 && |AfterFirstLine(s)| <= k - 2 && (limit.Some? ==> limit.value > 0)
    ensures Independent(s, limit) <==> Independent(AfterFirstLine(s), limit)
  {
    hide DecodePieces; hide Find; hide ChunkSize; hide Flat; hide Deliverable; hide Arrives;
    var data := AfterFirstLine(s);
    if Independent(data, limit) {
      forall first, ps, first', ps' | Arrives(s, first, ps, PIECE) && Arrives(s, first', ps', PIECE)
        ensures DecodePieces(first, ps, [], limit) == DecodePieces(first', ps', [], limit)
      {
        var a, qs := SkipForward(s, k, first, ps, limit);
        var b, qs' := SkipForward(s, k, first', ps', limit);
      }
    }
    if Independent(s, limit) {
      forall first, ps, first', ps' | Arrives(data, first, ps, PIECE) && Arrives(data, first', ps', PIECE)
        ensures DecodePieces(first, ps, [], limit) == DecodePieces(first', ps', [], limit)
      {
        SkipBack(s, k, first, ps, limit);
        SkipBack(s, k, first', ps', limit);
      }
    }
  }

  /** An arrival of the stream goes on as an arrival of what follows the line. */
  lemma SkipForward(s: seq<byte>, k: int, first: seq<byte>, ps: seq<seq<byte>>, limit: Option<int>)
      returns (buf: seq<byte>, qs: seq<seq<byte>>)
    requires Find(s, CRLF).Some? && ChunkSize(s[..Find(s, CRLF).value]) == Some(-k)
    requires k >= 2 && |AfterFirstLine(s)| <= k - 2 && (limit.Some? ==> limit.value > 0)
    requires Arrives(s, first, ps, PIECE)
    ensures Arrives(AfterFirstLine(s), buf, qs, PIECE)
    ensures DecodePieces(first, ps, [], limit) == DecodePieces(buf, qs, [], limit)
    ensures var f, n := FillTo(first, ps, CRLF), Find(s, CRLF).value + 2;
      (n <= |f.buf| && buf == f.buf[n..] && qs == f.rest)
  {
    hide Find; hide ChunkSize; hide Flat; hide FillTo; hide DecodePieces; hide TakeTo; hide PyDrop; hide Deliverable;
    var eol := Find(s, CRLF).value;
    var f := FillTo(first, ps, CRLF);
    LineReceived(s, f);
    FillExtends(first, ps, CRLF);
    buf, qs := f.buf[eol + 2..], f.rest;
    assert s[eol + 2..] == buf + Flat(qs);
    DecodeFrom(first, ps, [], limit);
    NothingSliced(buf, k);
    assert FillN(buf, qs, 2 - k) == Filled(true, buf, qs);
    var none: seq<byte> := [];
    assert none + [] == none;
  }

  lemma NothingSliced(b: seq<byte>, k: int)
    requires k >= 2 && |b| <= k - 2
    ensures TakeTo(b, -k) == [] && PyDrop(b, 2 - k) == b
  {
  }

  /** And every arrival of what follows is one of those. */
  lemma SkipBack(s: seq<byte>, k: int, first: seq<byte>, ps: seq<seq<byte>>, limit: Option<int>)
    requires Find(s, CRLF).Some? && ChunkSize(s[..Find(s, CRLF).value]) == Some(-k)
    requires k >= 2 && |AfterFirstLine(s)| <= k - 2 && (limit.Some? ==> limit.value > 0)
    requires Arrives(AfterFirstLine(s), first, ps, PIECE)
    ensures var n := Find(s, CRLF).value + 2;
      Arrives(s, s[..n] + first, ps, PIECE)
      && DecodePieces(s[..n] + first, ps, [], limit) == DecodePieces(first, ps, [], limit)
  {
    hide Find; hide ChunkSize; hide Flat; hide DecodePieces; hide TakeTo; hide PyDrop; hide Deliverable;
    var n := Find(s, CRLF).value + 2;
    var whole := s[..n] + first;
    assert whole + Flat(ps) == s[..n] + (first + Flat(ps)) == s;
    PatternInFirst(s, CRLF, n);
    FindInPrefix(s[..n], first, CRLF);
    assert FillTo(whole, ps, CRLF) == Filled(true, whole, ps);
    var buf, qs := SkipForward(s, k, whole, ps, limit);
    assert whole[n..] == first;
  }

  lemma CutToNothing(b: seq<byte>, k: int, limit: Option<int>)
    requires k > 0 && (|b| <= k || limit == Some(0)) && (limit.Some? ==> limit.value >= 0)
    ensures CutBack(b, k, limit) == []
  {
  }

  lemma CutToSomething(b: seq<byte>, k: int, limit: Option<int>)
    requires k > 0 && |b| > k && limit != Some(0) && (limit.Some? ==> limit.value >= 0)
    ensures CutBack(b, k, limit) != []
  {
  }

  /** The stream `-1`, line break, `ab`: received whole its body is `a`, received in two pieces it is empty. */
  lemma NegativeDiverges()
    ensures var s: seq<byte> := [0x2D, 0x31, 0x0D, 0x0A, 0x61, 0x62];
      DecodePieces([], [s], [], None) == Ok([0x61])
      && DecodePieces([], [s[..5], s[5..]], [], None) == Ok([])
  {
    hide DecodePieces; hide Find; hide ChunkSize; hide Flat;
    var s: seq<byte> := [0x2D, 0x31, 0x0D, 0x0A, 0x61, 0x62];
    MinusOne(s);
    TwoWays(s, 5);
    var data := AfterFirstLine(s);
    var j := NegativeOnce(s, 1, [], [s], None);
    FillAtOnce(s, []);
    assert [s] + [] == [s] && [s[..5]] + [s[5..]] == [s[..5], s[5..]] && [] + s == s;
    PatternInFirst(s, CRLF, 5);
    var i := NegativeOnce(s, 1, [], [s[..5], s[5..]], None);
    FillAtOnce(s[..5], [s[5..]]);
    assert s[4..] == data && s[..5][4..] == data[..1] == [0x61] && data[..2] == data;
    assert i == 1 && j == 2;
    EmptyCut(data, 1);
    EmptyCut(data[..1], 1);
  }

  lemma TwoWays(s: seq<byte>, n: nat)
    requires 0 < n < |s|
    ensures Flat([s]) == s && Flat([s[..n], s[n..]]) == s
  {
    FlatNothing();
    assert [s][1..] == [] && s + [] == s;
    assert [s[..n], s[n..]][1..] == [s[n..]] && [s[n..]][1..] == [] && s[n..] + [] == s[n..] && s[..n] + s[n..] == s;
  }

  lemma FillAtOnce(piece: seq<byte>, rest: seq<seq<byte>>)
    requires Find(piece, CRLF).Some?
    ensures FillTo([], [piece] + rest, CRLF) == Filled(true, piece, rest)
  {
    assert [] + piece == piece;
    assert Find([], CRLF).None?;
    FillOnePiece([], piece, rest, CRLF);
  }

  lemma MinusOne(s: seq<byte>)
    requires s == [0x2D, 0x31, 0x0D, 0x0A, 0x61, 0x62]
    ensures Find(s, CRLF) == Some(2) && NegativeFirst(s, 1) && AfterFirstLine(s) == [0x61, 0x62]
  {
    assert s[2..4] == CRLF;
    NotThere(s, CRLF, 0);
    NotThere(s, CRLF, 1);
    FindIs(s, CRLF, 2);
    var line := s[..2];
    assert line == [0x2D, 0x31];
    NotThere(line, [SEMICOLON], 0);
    NotThere(line, [SEMICOLON], 1);
    assert StripLeft(line) == line && StripRight(line) == line;
    assert line[1..] == [0x31];
    assert Digits([0x31]) == Some(1);
    assert ParseHex(line) == Some(-1);
    var data := s[4..];
    assert data == [0x61, 0x62];
    NotThere(data, CRLF, 0);
  }

  lemma NotThere(s: seq<byte>, pat: seq<byte>, i: nat)
    requires i < |s| && pat != [] && s[i] != pat[0]
    ensures !StandsAt(s, pat, i)
  {
    assert i + |pat| <= |s| ==> s[i..i + |pat|][0] == s[i];
  }
}
