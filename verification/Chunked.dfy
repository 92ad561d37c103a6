/** The chunked transfer coding of section 7.1 of RFC 9112, read from a socket. */
module Chunked {
  import opened Wrappers
  import opened Sockets

  const CRLF: seq<byte> := [0x0D, 0x0A]
  const SEMICOLON: byte := 0x3B
  /** How much one receive of the body, and one of the head, asks for. */
  const PIECE: nat := 65536
  const HEAD_PIECE: nat := 4096
  const UNDERSCORE: byte := 0x5F

  /** Why decoding stops without a body: a chunk size that is no number, or a negative one. */
  datatype ChunkError = BadSize | NegativeSize

  // ---- the chunk size, as Python's int(text, 16) reads it ----

  predicate IsSpace(b: byte) {
    b == 0x20 || 0x09 <= b <= 0x0D
  }

  function StripLeft(s: seq<byte>): seq<byte> {
    if s != [] && IsSpace(s[0]) then StripLeft(s[1..]) else s
  }

  function StripRight(s: seq<byte>): seq<byte> {
    if s != [] && IsSpace(s[|s| - 1]) then StripRight(s[..|s| - 1]) else s
  }

  function Strip(s: seq<byte>): seq<byte> {
    StripRight(StripLeft(s))
  }

  function DigitValue(b: byte): Option<nat> {
    if 0x30 <= b <= 0x39 then Some((b - 0x30) as nat)
    else if 0x41 <= b <= 0x46 then Some((b - 0x41) as nat + 10)
    else if 0x61 <= b <= 0x66 then Some((b - 0x61) as nat + 10)
    else None
  }

  /** Hexadecimal digits, with single underscores allowed between two of them. */
  function Digits(t: seq<byte>): Option<nat>
    decreases |t|
  {
    var n := |t| - 1;
    if t == [] || DigitValue(t[n]).None? then None
    else if n == 0 then DigitValue(t[n])
    else
      var high := Digits(if t[n - 1] == UNDERSCORE then t[..n - 1] else t[..n]);
      if high.None? then None else Some(high.value * 16 + DigitValue(t[n]).value)
  }

  function DropPrefix(t: seq<byte>): seq<byte> {
    if |t| >= 2 && t[0] == 0x30 && (t[1] == 0x78 || t[1] == 0x58) then
      if |t| > 2 && t[2] == UNDERSCORE then t[3..] else t[2..]
    else t
  }

  function ParseHex(t: seq<byte>): Option<int> {
    if t != [] && (t[0] == 0x2B || t[0] == 0x2D) then
      var v := Digits(DropPrefix(t[1..]));
      if v.None? then None else
      var magnitude: int := v.value;
      Some(if t[0] == 0x2D then -magnitude else magnitude)
    else
      var v := Digits(DropPrefix(t));
      if v.None? then None else Some(v.value)
  }

  function ChunkSize(line: seq<byte>): Option<int> {
    var semi := Find(line, [SEMICOLON]);
    ParseHex(Strip(if semi.Some? then line[..semi.value] else line))
  }

  // ---- decoding as a function of the whole stream ----

  /** Python's out[:k]. */
  function TakeTo(s: seq<byte>, k: int): seq<byte> {
    if k >= 0 then (if k <= |s| then s[..k] else s)
    else if -k <= |s| then s[..|s| + k] else []
  }

  /** The body read from stream s after out was decoded, however s is cut into pieces. */
  function Dechunk(s: seq<byte>, out: seq<byte>, limit: Option<int>): Result<seq<byte>, ChunkError>
    decreases |s|, 1
  {
    var eol := Find(s, CRLF);
    if eol.None? then Ok(out)
    else AfterLine(ChunkSize(s[..eol.value]), s[eol.value + 2..], out, limit)
  }

  /** The same, once the size line was read and the stream stands at the chunk data. */
  function AfterLine(size: Option<int>, s: seq<byte>, out: seq<byte>, limit: Option<int>):
      Result<seq<byte>, ChunkError>
    decreases |s| + 1, 0
  {
    if size.None? then Err(BadSize)
    else if size.value == 0 then Ok(out)
    else if size.value < 0 then Err(NegativeSize)
    else if |s| < size.value + 2 then Ok(out + s)
    else
      var more := out + s[..size.value];
      if limit.Some? && |more| >= limit.value then Ok(TakeTo(more, limit.value))
      else Dechunk(s[size.value + 2..], more, limit)
  }

  /** What a size line found in the buffer says, it says of the whole stream. */
  lemma LineInBuffer(buf: seq<byte>, pending: seq<byte>, out: seq<byte>, limit: Option<int>)
    requires Find(buf, CRLF).Some?
    ensures var eol := Find(buf, CRLF).value;
            Dechunk(buf + pending, out, limit)
            == AfterLine(ChunkSize(buf[..eol]), buf[eol + 2..] + pending, out, limit)
  {
    FindInPrefix(buf, pending, CRLF);
    var eol := Find(buf, CRLF).value;
    assert (buf + pending)[..eol] == buf[..eol];
    assert (buf + pending)[eol + 2..] == buf[eol + 2..] + pending;
  }

  lemma NoLineLeft(s: seq<byte>, out: seq<byte>, limit: Option<int>)
    ensures Find(s, CRLF).None? ==> Dechunk(s, out, limit) == Ok(out)
  {
  }

  lemma DataInBuffer(size: int, buf: seq<byte>, pending: seq<byte>, out: seq<byte>, limit: Option<int>)
    requires size > 0 && |buf| >= size + 2
    ensures var more := out + buf[..size];
            AfterLine(Some(size), buf + pending, out, limit)
            == if limit.Some? && |more| >= limit.value then Ok(TakeTo(more, limit.value))
               else Dechunk(buf[size + 2..] + pending, more, limit)
  {
    assert (buf + pending)[..size] == buf[..size];
    assert (buf + pending)[size + 2..] == buf[size + 2..] + pending;
  }

  /** Python's s[:k] and s[k:] for a negative k. */
  function PyDrop(s: seq<byte>, k: int): (r: seq<byte>)
    ensures |r| <= |s|
  {
    if k >= 0 then (if k <= |s| then s[k..] else [])
    else if -k <= |s| then s[|s| + k..] else s
  }

  // ---- decoding as a function of the pieces that arrive ----

  function Flat(ps: seq<seq<byte>>): seq<byte> {
    if ps == [] then [] else ps[0] + Flat(ps[1..])
  }

  /** A buffer after receiving: whether it has what was wanted, and the pieces still to come. */
  datatype Filled = Filled(ok: bool, buf: seq<byte>, rest: seq<seq<byte>>)

  /** Receives until buf holds a pattern. */
  function FillTo(buf: seq<byte>, ps: seq<seq<byte>>, pat: seq<byte>): (r: Filled)
    ensures r.buf + Flat(r.rest) == buf + Flat(ps)
    ensures r.ok <==> Find(r.buf, pat).Some?
    ensures !r.ok ==> r.rest == []
    decreases |ps|
  {
    if Find(buf, pat).Some? then Filled(true, buf, ps)
    else if ps == [] then Filled(false, buf, [])
    else
      assert buf + (ps[0] + Flat(ps[1..])) == buf + ps[0] + Flat(ps[1..]);
      FillTo(buf + ps[0], ps[1..], pat)
  }

  /** Receives until buf holds n bytes. */
  function FillN(buf: seq<byte>, ps: seq<seq<byte>>, n: int): (r: Filled)
    ensures r.buf + Flat(r.rest) == buf + Flat(ps)
    ensures r.ok <==> |r.buf| >= n
    ensures !r.ok ==> r.rest == []
    decreases |ps|
  {
    if |buf| >= n then Filled(true, buf, ps)
    else if ps == [] then Filled(false, buf, [])
    else
      assert buf + (ps[0] + Flat(ps[1..])) == buf + ps[0] + Flat(ps[1..]);
      FillN(buf + ps[0], ps[1..], n)
  }

  /** The body decoded with buf received and ps still to come, negative sizes sliced as the code slices them. */
  function DecodePieces(buf: seq<byte>, ps: seq<seq<byte>>, out: seq<byte>, limit: Option<int>):
      Result<seq<byte>, ChunkError>
    decreases |buf + Flat(ps)|
  {
    var f := FillTo(buf, ps, CRLF);
    if !f.ok then Ok(out)
    else
      var eol := Find(f.buf, CRLF).value;
      var size := ChunkSize(f.buf[..eol]);
      if size.None? then Err(BadSize)
      else if size.value == 0 then Ok(out)
      else
        var g := FillN(f.buf[eol + 2..], f.rest, size.value + 2);
        if !g.ok then Ok(out + g.buf)
        else
          var more := out + TakeTo(g.buf, size.value);
          if limit.Some? && |more| >= limit.value then Ok(TakeTo(more, limit.value))
          else DecodePieces(PyDrop(g.buf, size.value + 2), g.rest, more, limit)
  }

  /** Whatever comes later, the pieces ps lead from buf to buf1. */
  ghost predicate LeadsTo(buf: seq<byte>, ps: seq<seq<byte>>, pat: seq<byte>, buf1: seq<byte>) {
    forall more :: FillTo(buf, ps + more, pat) == FillTo(buf1, more, pat)
  }

  ghost predicate LeadsN(buf: seq<byte>, ps: seq<seq<byte>>, n: int, buf1: seq<byte>) {
    forall more :: FillN(buf, ps + more, n) == FillN(buf1, more, n)
  }

  /** Whatever comes later, decoding goes on from buf and out as it would from the start. */
  ghost predicate Carries(first: seq<byte>, ps: seq<seq<byte>>, buf: seq<byte>, out: seq<byte>, limit: Option<int>) {
    forall more :: DecodePieces(first, ps + more, [], limit) == DecodePieces(buf, more, out, limit)
  }

  lemma NoPieces(buf: seq<byte>, pat: seq<byte>, n: int, limit: Option<int>)
    ensures LeadsTo(buf, [], pat, buf) && LeadsN(buf, [], n, buf) && Carries(buf, [], buf, [], limit)
    ensures Flat([]) == [] && forall most :: Deliverable([], most)
  {
    assert forall more: seq<seq<byte>> :: [] + more == more;
  }

  lemma OnePieceTo(buf: seq<byte>, ps: seq<seq<byte>>, pat: seq<byte>, buf1: seq<byte>, piece: seq<byte>)
    requires LeadsTo(buf, ps, pat, buf1) && Find(buf1, pat).None?
    ensures LeadsTo(buf, ps + [piece], pat, buf1 + piece)
  {
    hide Find; hide Flat;
    forall more
      ensures FillTo(buf, ps + [piece] + more, pat) == FillTo(buf1 + piece, more, pat)
    {
      assert ps + [piece] + more == ps + ([piece] + more);
      assert ([piece] + more)[1..] == more;
    }
  }

  lemma OnePieceN(buf: seq<byte>, ps: seq<seq<byte>>, n: int, buf1: seq<byte>, piece: seq<byte>)
    requires LeadsN(buf, ps, n, buf1) && |buf1| < n
    ensures LeadsN(buf, ps + [piece], n, buf1 + piece)
  {
    hide Flat;
    forall more
      ensures FillN(buf, ps + [piece] + more, n) == FillN(buf1 + piece, more, n)
    {
      assert ps + [piece] + more == ps + ([piece] + more);
      assert ([piece] + more)[1..] == more;
    }
  }

  lemma Regroup(a: seq<byte>, b: seq<byte>, c: seq<byte>)
    ensures a + (b + c) == a + b + c
  {
  }

  lemma FlatPush(ps: seq<seq<byte>>, piece: seq<byte>)
    ensures Flat(ps + [piece]) == Flat(ps) + piece
    decreases |ps|
  {
    if ps == [] {
      assert ([] + [piece])[1..] == [];
    } else {
      assert (ps + [piece])[1..] == ps[1..] + [piece];
      FlatPush(ps[1..], piece);
    }
  }

  lemma FlatAppend(a: seq<seq<byte>>, b: seq<seq<byte>>)
    ensures Flat(a + b) == Flat(a) + Flat(b)
    ensures forall most :: Deliverable(a, most) && Deliverable(b, most) ==> Deliverable(a + b, most)
    decreases |a|
  {
    if a == [] {
      assert a + b == b;
    } else {
      assert (a + b)[1..] == a[1..] + b;
      FlatAppend(a[1..], b);
    }
  }

  /** What receives of at most `most` bytes can return: never nothing before the end. */
  ghost predicate Deliverable(ps: seq<seq<byte>>, most: nat) {
    forall i :: 0 <= i < |ps| ==> 0 < |ps[i]| <= most
  }

  // ---- the loops ----

  lemma LineCases(size: Option<int>, s: seq<byte>, out: seq<byte>, limit: Option<int>)
    ensures size.None? ==> AfterLine(size, s, out, limit) == Err(BadSize)
    ensures size == Some(0) ==> AfterLine(size, s, out, limit) == Ok(out)
    ensures size.Some? && size.value < 0 ==> AfterLine(size, s, out, limit) == Err(NegativeSize)
    ensures size.Some? && 0 < size.value && |s| < size.value + 2 ==> AfterLine(size, s, out, limit) == Ok(out + s)
  {
  }

  lemma PlainSlices(buf: seq<byte>, size: int)
    requires size > 0 && |buf| >= size + 2
    ensures TakeTo(buf, size) == buf[..size] && PyDrop(buf, size + 2) == buf[size + 2..]
  {
  }

  /** Receives until buf holds n bytes; false when the stream ends first. */
  method Need(sock: Socket, first: seq<byte>, n: int) returns (ok: bool, buf: seq<byte>, ghost ps: seq<seq<byte>>)
    modifies sock
    ensures buf + sock.pending == first + old(sock.pending)
    ensures ok ==> |buf| >= n
    ensures !ok ==> |buf| < n && sock.pending == []
    ensures Flat(ps) + sock.pending == old(sock.pending) && Deliverable(ps, PIECE) && LeadsN(first, ps, n, buf)
  {
    hide LeadsN; hide Flat;
    buf, ps := first, [];
    NoPieces(first, CRLF, n, None);
    while |buf| < n
      invariant buf + sock.pending == first + old(sock.pending)
      invariant Flat(ps) + sock.pending == old(sock.pending) && Deliverable(ps, PIECE) && LeadsN(first, ps, n, buf)
      decreases |sock.pending|
    {
      var chunk := sock.Recv(PIECE);
      if |chunk| == 0 { return false, buf, ps; }
      OnePieceN(first, ps, n, buf, chunk);
      FlatPush(ps, chunk);
      Regroup(buf, chunk, sock.pending);
      Regroup(Flat(ps), chunk, sock.pending);
      buf, ps := buf + chunk, ps + [chunk];
    }
    return true, buf, ps;
  }

  /** Receives until buf holds a pattern; false when the stream ends first. */
  method NeedPattern(sock: Socket, first: seq<byte>, pat: seq<byte>, piece: nat)
      returns (ok: bool, buf: seq<byte>, ghost ps: seq<seq<byte>>)
    requires piece > 0
    modifies sock
    ensures buf + sock.pending == first + old(sock.pending)
    ensures ok <==> Find(buf, pat).Some?
    ensures !ok ==> sock.pending == []
    ensures Flat(ps) + sock.pending == old(sock.pending) && Deliverable(ps, piece) && LeadsTo(first, ps, pat, buf)
  {
    hide LeadsTo; hide Flat; hide Find;
    buf, ps := first, [];
    NoPieces(first, pat, 0, None);
    while Find(buf, pat).None?
      invariant buf + sock.pending == first + old(sock.pending)
      invariant Flat(ps) + sock.pending == old(sock.pending) && Deliverable(ps, piece) && LeadsTo(first, ps, pat, buf)
      decreases |sock.pending|
    {
      var chunk := sock.Recv(piece);
      if |chunk| == 0 { return false, buf, ps; }
      OnePieceTo(first, ps, pat, buf, chunk);
      FlatPush(ps, chunk);
      Regroup(buf, chunk, sock.pending);
      Regroup(Flat(ps), chunk, sock.pending);
      buf, ps := buf + chunk, ps + [chunk];
    }
    return true, buf, ps;
  }

  /** With no line in the buffer and nothing to come, what was decoded is the body. */
  lemma EndsWithoutLine(first: seq<byte>, ps: seq<seq<byte>>, buf: seq<byte>, out: seq<byte>, limit: Option<int>,
                        ps1: seq<seq<byte>>, buf1: seq<byte>)
    requires Carries(first, ps, buf, out, limit) && LeadsTo(buf, ps1, CRLF, buf1) && Find(buf1, CRLF).None?
    ensures DecodePieces(first, ps + ps1, [], limit) == Ok(out)
  {
    hide Find;
    assert ps1 + [] == ps1;
  }

  /** One round, up to the data of a chunk. */
  lemma LineStep(first: seq<byte>, ps: seq<seq<byte>>, buf: seq<byte>, out: seq<byte>, limit: Option<int>,
                 ps1: seq<seq<byte>>, buf1: seq<byte>, more: seq<seq<byte>>)
    requires Carries(first, ps, buf, out, limit) && LeadsTo(buf, ps1, CRLF, buf1) && Find(buf1, CRLF).Some?
    ensures DecodePieces(first, ps + ps1 + more, [], limit) == AfterLinePieces(buf1, more, out, limit)
  {
    hide Find; hide DecodePieces; hide AfterLinePieces; hide FillTo; hide FillN; hide Flat;
    assert ps + ps1 + more == ps + (ps1 + more);
    FilledAlready(buf1, more);
    DecodeFrom(buf, ps1 + more, out, limit);
  }

  lemma FilledAlready(buf: seq<byte>, more: seq<seq<byte>>)
    requires Find(buf, CRLF).Some?
    ensures FillTo(buf, more, CRLF) == Filled(true, buf, more)
  {
    hide Find; hide Flat;
  }

  lemma DecodeFrom(buf: seq<byte>, ps: seq<seq<byte>>, out: seq<byte>, limit: Option<int>)
    requires FillTo(buf, ps, CRLF).ok
    ensures DecodePieces(buf, ps, out, limit)
      == AfterLinePieces(FillTo(buf, ps, CRLF).buf, FillTo(buf, ps, CRLF).rest, out, limit)
  {
    hide Find; hide ChunkSize; hide TakeTo; hide PyDrop; hide FillN; hide FillTo; hide Flat;
  }

  /** DecodePieces once the buffer holds a line. */
  function AfterLinePieces(buf: seq<byte>, rest: seq<seq<byte>>, out: seq<byte>, limit: Option<int>):
      Result<seq<byte>, ChunkError>
    requires Find(buf, CRLF).Some?
  {
    var eol := Find(buf, CRLF).value;
    var size := ChunkSize(buf[..eol]);
    if size.None? then Err(BadSize)
    else if size.value == 0 then Ok(out)
    else
      var g := FillN(buf[eol + 2..], rest, size.value + 2);
      if !g.ok then Ok(out + g.buf)
      else
        var more := out + TakeTo(g.buf, size.value);
        if limit.Some? && |more| >= limit.value then Ok(TakeTo(more, limit.value))
        else DecodePieces(PyDrop(g.buf, size.value + 2), g.rest, more, limit)
  }

  lemma SizeStep(buf: seq<byte>, out: seq<byte>, limit: Option<int>)
    requires Find(buf, CRLF).Some?
    ensures var size := ChunkSize(buf[..Find(buf, CRLF).value]);
      (size.None? ==> AfterLinePieces(buf, [], out, limit) == Err(BadSize))
      && (size == Some(0) ==> AfterLinePieces(buf, [], out, limit) == Ok(out))
  {
    hide Find; hide ChunkSize; hide DecodePieces; hide FillN;
  }

  lemma DataStep(buf1: seq<byte>, ps2: seq<seq<byte>>, buf2: seq<byte>, more: seq<seq<byte>>, out: seq<byte>,
                 limit: Option<int>)
    requires Find(buf1, CRLF).Some?
    requires var size := ChunkSize(buf1[..Find(buf1, CRLF).value]);
      size.Some? && size.value != 0 && LeadsN(buf1[Find(buf1, CRLF).value + 2..], ps2, size.value + 2, buf2)
      && (|buf2| < size.value + 2 ==> more == [])
    ensures var size := ChunkSize(buf1[..Find(buf1, CRLF).value]).value;
      AfterLinePieces(buf1, ps2 + more, out, limit)
      == if |buf2| < size + 2 then Ok(out + buf2)
         else if limit.Some? && |out + TakeTo(buf2, size)| >= limit.value then
           Ok(TakeTo(out + TakeTo(buf2, size), limit.value))
         else DecodePieces(PyDrop(buf2, size + 2), more, out + TakeTo(buf2, size), limit)
  {
    hide Find; hide ChunkSize; hide TakeTo; hide PyDrop; hide DecodePieces;
  }

  /**
   * decode_chunked: the result is what decoding the received pieces one by one
   * yields; and it is a function of the bytes alone, not of the pieces they arrive
   * in, unless some chunk size is negative.
   */
  method DecodeChunked(sock: Socket, first: seq<byte>, limit: Option<int>)
      returns (r: Result<seq<byte>, ChunkError>, ghost ps: seq<seq<byte>>)
    modifies sock
    ensures var d := Dechunk(first + old(sock.pending), [], limit);
            d != Err(NegativeSize) ==> r == d
    ensures r != Err(NegativeSize)
    ensures Flat(ps) + sock.pending == old(sock.pending) && Deliverable(ps, PIECE)
    ensures r == DecodePieces(first, ps, [], limit)
  {
    hide Dechunk; hide ChunkSize; hide DecodePieces; hide Carries; hide LeadsTo; hide LeadsN; hide Find; hide Flat;
    hide TakeTo;
    hide FillN; hide AfterLinePieces; hide PyDrop; hide Deliverable; hide AfterLine;
    var buf := first;
    var out := [];
    ps := [];
    NoPieces(first, CRLF, 0, limit);
    ghost var d := Dechunk(first + sock.pending, [], limit);
    ghost var known := d != Err(NegativeSize);
    while true
      invariant known ==> Dechunk(buf + sock.pending, out, limit) == d
      invariant Flat(ps) + sock.pending == old(sock.pending) && Deliverable(ps, PIECE)
      invariant Carries(first, ps, buf, out, limit)
      decreases |buf| + |sock.pending|
    {
      ghost var s := buf + sock.pending;
      var found;
      ghost var ps1, buf0 := [], buf;
      found, buf, ps1 := NeedPattern(sock, buf, CRLF, PIECE);
      FlatAppend(ps, ps1);
      Regroup(Flat(ps), Flat(ps1), sock.pending);
      if !found {
        NoLineLeft(s, out, limit);
        EndsWithoutLine(first, ps, buf0, out, limit, ps1, buf);
        assert s == buf;
        return Ok(out), ps + ps1;
      }
      LineInBuffer(buf, sock.pending, out, limit);
      ghost var buf1, pending1 := buf, sock.pending;
      assert buf1 + pending1 == s;
      LineStep(first, ps, buf0, out, limit, ps1, buf1, []);
      assert ps + ps1 + [] == ps + ps1;
      SizeStep(buf1, out, limit);
      var eol := Find(buf, CRLF).value;
      var line := buf[..eol];
      buf := buf[eol + 2..];
      var size := ChunkSize(line);
      LineCases(size, buf + sock.pending, out, limit);
      if size.None? { return Err(BadSize), ps + ps1; }
      if size.value == 0 { return Ok(out), ps + ps1; }
      var enough;
      ghost var ps2;
      enough, buf, ps2 := Need(sock, buf, size.value + 2);
      ghost var ps3 := ps + ps1 + ps2;
      FlatAppend(ps + ps1, ps2);
      Regroup(Flat(ps + ps1), Flat(ps2), sock.pending);
      PiecesRound(first, ps, buf0, out, limit, ps1, buf1, ps2, buf);
      StreamRound(buf1, pending1, out, limit, buf, sock.pending);
      if !enough {
        return Ok(out + buf), ps3;
      }
      assert known && (limit.None? || |out + TakeTo(buf, size.value)| < limit.value) ==>
        Dechunk(PyDrop(buf, size.value + 2) + sock.pending, out + TakeTo(buf, size.value), limit) == d;
      out := out + TakeTo(buf, size.value);
      buf := PyDrop(buf, size.value + 2);
      ps := ps3;
      if limit.Some? && |out| >= limit.value {
        return Ok(TakeTo(out, limit.value)), ps;
      }
    }
  }

  /** What one round makes of the pieces. */
  lemma PiecesRound(first: seq<byte>, ps: seq<seq<byte>>, buf: seq<byte>, out: seq<byte>, limit: Option<int>,
                    ps1: seq<seq<byte>>, buf1: seq<byte>, ps2: seq<seq<byte>>, buf2: seq<byte>)
    requires Carries(first, ps, buf, out, limit) && LeadsTo(buf, ps1, CRLF, buf1) && Find(buf1, CRLF).Some?
    requires var size := ChunkSize(buf1[..Find(buf1, CRLF).value]);
      size.Some? && size.value != 0 && LeadsN(buf1[Find(buf1, CRLF).value + 2..], ps2, size.value + 2, buf2)
    ensures var size := ChunkSize(buf1[..Find(buf1, CRLF).value]).value;
      var ps3, more := ps + ps1 + ps2, out + TakeTo(buf2, size);
      if |buf2| < size + 2 then DecodePieces(first, ps3, [], limit) == Ok(out + buf2)
      else if limit.Some? && |more| >= limit.value then
        DecodePieces(first, ps3, [], limit) == Ok(TakeTo(more, limit.value))
      else Carries(first, ps3, PyDrop(buf2, size + 2), more, limit)
  {
    hide Find; hide ChunkSize; hide TakeTo; hide PyDrop; hide DecodePieces; hide AfterLinePieces; hide LeadsTo;
    hide LeadsN; hide Carries;
    LineStep(first, ps, buf, out, limit, ps1, buf1, ps2);
    DataStep(buf1, ps2, buf2, [], out, limit);
    assert ps2 + [] == ps2;
    if |buf2| >= ChunkSize(buf1[..Find(buf1, CRLF).value]).value + 2 {
      CarryOn(first, ps, buf, out, limit, ps1, buf1, ps2, buf2);
    }
  }

  /** What one round makes of the stream, when its size is not negative. */
  lemma StreamRound(buf1: seq<byte>, pending1: seq<byte>, out: seq<byte>, limit: Option<int>, buf2: seq<byte>,
                    pending2: seq<byte>)
    requires Find(buf1, CRLF).Some? && buf1[Find(buf1, CRLF).value + 2..] + pending1 == buf2 + pending2
    requires var size := ChunkSize(buf1[..Find(buf1, CRLF).value]);
      size.Some? && size.value != 0 && (|buf2| < size.value + 2 ==> pending2 == [])
    ensures var size := ChunkSize(buf1[..Find(buf1, CRLF).value]).value;
      var d, more := Dechunk(buf1 + pending1, out, limit), out + TakeTo(buf2, size);
      d != Err(NegativeSize) ==>
        size > 0
        && d == if |buf2| < size + 2 then Ok(out + buf2)
                else if limit.Some? && |more| >= limit.value then Ok(TakeTo(more, limit.value))
                else Dechunk(PyDrop(buf2, size + 2) + pending2, more, limit)
  {
    hide Find; hide ChunkSize; hide Dechunk; hide AfterLine; hide TakeTo; hide PyDrop;
    var size := ChunkSize(buf1[..Find(buf1, CRLF).value]).value;
    LineInBuffer(buf1, pending1, out, limit);
    LineCases(Some(size), buf2 + pending2, out, limit);
    if size > 0 {
      if |buf2| < size + 2 {
        assert buf2 + pending2 == buf2;
      } else {
        DataInBuffer(size, buf2, pending2, out, limit);
        PlainSlices(buf2, size);
      }
    }
  }

  /** One round carries decoding on, unless the limit ends it. */
  lemma CarryOn(first: seq<byte>, ps: seq<seq<byte>>, buf: seq<byte>, out: seq<byte>, limit: Option<int>,
                ps1: seq<seq<byte>>, buf1: seq<byte>, ps2: seq<seq<byte>>, buf2: seq<byte>)
    requires Carries(first, ps, buf, out, limit) && LeadsTo(buf, ps1, CRLF, buf1) && Find(buf1, CRLF).Some?
    requires var size := ChunkSize(buf1[..Find(buf1, CRLF).value]);
      size.Some? && size.value != 0 && |buf2| >= size.value + 2
      && LeadsN(buf1[Find(buf1, CRLF).value + 2..], ps2, size.value + 2, buf2)
    ensures var size := ChunkSize(buf1[..Find(buf1, CRLF).value]).value; var more := out + TakeTo(buf2, size);
      limit.None? || |more| < limit.value ==> Carries(first, ps + ps1 + ps2, PyDrop(buf2, size + 2), more, limit)
  {
    hide Find; hide ChunkSize; hide TakeTo; hide PyDrop; hide DecodePieces; hide AfterLinePieces; hide LeadsTo;
    hide LeadsN;
    var size := ChunkSize(buf1[..Find(buf1, CRLF).value]).value;
    var next := out + TakeTo(buf2, size);
    if limit.None? || |next| < limit.value {
      forall more
        ensures DecodePieces(first, ps + ps1 + ps2 + more, [], limit)
          == DecodePieces(PyDrop(buf2, size + 2), more, next, limit)
      {
        LineStep(first, ps, buf, out, limit, ps1, buf1, ps2 + more);
        DataStep(buf1, ps2, buf2, more, out, limit);
        assert ps + ps1 + (ps2 + more) == ps + ps1 + ps2 + more;
      }
    }
  }
}
