/** Well-formed chunked bodies, and what the decoder makes of them. */
module ChunkedBodies {
  import opened Wrappers
  import opened Sockets
  import opened Chunked

  /**
   * One chunk of section 7.1: its size in hexadecimal digits of any case and any
   * number of leading zeros, optional extensions, and its data. A last chunk has
   * size zero and no data.
   */
  datatype Chunk = Chunk(digits: seq<byte>, blank: seq<byte>, ext: seq<byte>, data: seq<byte>) {
    function Line(): seq<byte> {
      digits + blank + ext
    }

    ghost predicate WellFormed() {
      && digits != [] && AllHex(digits) && HexValue(digits) == |data|
      && (forall i :: 0 <= i < |blank| ==> blank[i] == 0x20 || blank[i] == 0x09)
      && (ext != [] ==> ext[0] == SEMICOLON)
      && Find(Line(), CRLF).None?
    }
  }

  predicate AllHex(t: seq<byte>) {
    forall i :: 0 <= i < |t| ==> DigitValue(t[i]).Some?
  }

  function HexValue(t: seq<byte>): nat
    requires AllHex(t)
  {
    if t == [] then 0 else HexValue(t[..|t| - 1]) * 16 + DigitValue(t[|t| - 1]).value
  }

  // ---- reading the size line ----

  lemma {:induction false} DigitsAreHex(t: seq<byte>)
    requires t != [] && AllHex(t)
    ensures Digits(t) == Some(HexValue(t))
    decreases |t|
  {
    var n := |t| - 1;
    if n > 0 {
      assert DigitValue(UNDERSCORE).None?;
      DigitsAreHex(t[..n]);
    } else {
      assert t[..0] == [];
    }
  }

  lemma ParseDigits(t: seq<byte>)
    requires t != [] && AllHex(t)
    ensures ParseHex(t) == Some(HexValue(t))
  {
    assert DigitValue(t[0]).Some?;
    assert |t| > 1 ==> DigitValue(t[1]).Some?;
    assert DropPrefix(t) == t;
    DigitsAreHex(t);
  }

  lemma {:induction false} StripBlank(digits: seq<byte>, blank: seq<byte>)
    requires digits != [] && AllHex(digits)
    requires forall i :: 0 <= i < |blank| ==> blank[i] == 0x20 || blank[i] == 0x09
    ensures StripRight(digits + blank) == digits
    decreases |blank|
  {
    var s := digits + blank;
    if blank == [] {
      assert s == digits;
      assert DigitValue(digits[|digits| - 1]).Some?;
    } else {
      assert s[..|s| - 1] == digits + blank[..|blank| - 1];
      StripBlank(digits, blank[..|blank| - 1]);
    }
  }

  lemma StripLine(digits: seq<byte>, blank: seq<byte>)
    requires digits != [] && AllHex(digits)
    requires forall i :: 0 <= i < |blank| ==> blank[i] == 0x20 || blank[i] == 0x09
    ensures Strip(digits + blank) == digits
  {
    assert DigitValue(digits[0]).Some?;
    assert (digits + blank)[0] == digits[0];
    StripBlank(digits, blank);
  }

  lemma SizeOfLine(c: Chunk)
    requires c.WellFormed()
    ensures ChunkSize(c.Line()) == Some(|c.data|)
  {
    var front, line := c.digits + c.blank, c.Line();
    assert DigitValue(SEMICOLON).None?;
    forall j | 0 <= j < |front|
      ensures !StandsAt(line, [SEMICOLON], j)
    {
      assert line[j..j + 1] == [line[j]];
      assert line[j] == if j < |c.digits| then c.digits[j] else c.blank[j - |c.digits|];
    }
    if c.ext != [] {
      assert line[|front|..|front| + 1] == [SEMICOLON];
      FindIs(line, [SEMICOLON], |front|);
    } else {
      assert line == front;
    }
    assert line[..|front|] == front;
    StripLine(c.digits, c.blank);
    ParseDigits(c.digits);
  }

  /** The first CRLF after a size line is the one that ends it. */
  lemma LineEnds(line: seq<byte>, tail: seq<byte>)
    requires Find(line, CRLF).None?
    ensures Find(line + CRLF + tail, CRLF) == Some(|line|)
  {
    var s := line + CRLF + tail;
    forall j | 0 <= j < |line|
      ensures !StandsAt(s, CRLF, j)
    {
      if j + 1 < |line| {
        assert s[j..j + 2] == line[j..j + 2];
        assert !StandsAt(line, CRLF, j);
      } else {
        assert s[j..j + 2][1] == 0x0D;
      }
    }
    assert s[|line|..|line| + 2] == CRLF;
    FindIs(s, CRLF, |line|);
  }

  // ---- decoding what was encoded ----

  function Encode(c: Chunk): seq<byte> {
    c.Line() + CRLF + c.data + CRLF
  }

  function EncodeAll(cs: seq<Chunk>): seq<byte> {
    if cs == [] then [] else Encode(cs[0]) + EncodeAll(cs[1..])
  }

  function Data(cs: seq<Chunk>): seq<byte> {
    if cs == [] then [] else cs[0].data + Data(cs[1..])
  }

  ghost predicate Body(cs: seq<Chunk>, last: Chunk) {
    && (forall i :: 0 <= i < |cs| ==> cs[i].WellFormed() && cs[i].data != [])
    && last.WellFormed() && last.data == []
  }

  lemma DechunkLine(c: Chunk, tail: seq<byte>, out: seq<byte>, limit: Option<int>)
    requires c.WellFormed()
    ensures Dechunk(c.Line() + CRLF + tail, out, limit) == AfterLine(Some(|c.data|), tail, out, limit)
  {
    var s := c.Line() + CRLF + tail;
    LineEnds(c.Line(), tail);
    SizeOfLine(c);
    assert s[..|c.Line()|] == c.Line();
    assert s[|c.Line()| + 2..] == tail;
  }

  lemma DechunkOne(c: Chunk, tail: seq<byte>, out: seq<byte>, limit: Option<int>)
    requires c.WellFormed() && c.data != []
    ensures var more := out + c.data;
            Dechunk(Encode(c) + tail, out, limit)
            == if limit.Some? && |more| >= limit.value then Ok(TakeTo(more, limit.value))
               else Dechunk(tail, more, limit)
  {
    hide Dechunk;
    var rest := c.data + CRLF + tail;
    assert Encode(c) + tail == c.Line() + CRLF + rest;
    DechunkLine(c, rest, out, limit);
    DataInBuffer(|c.data|, c.data + CRLF, tail, out, limit);
    assert (c.data + CRLF)[..|c.data|] == c.data;
    assert (c.data + CRLF)[|c.data| + 2..] + tail == tail;
  }

  ghost predicate Below(out: seq<byte>, limit: Option<int>) {
    limit.Some? ==> |out| < limit.value || (limit.value == 0 && out == [])
  }

  lemma TakeAllOf(s: seq<byte>, k: int)
    requires k >= |s|
    ensures TakeTo(s, k) == s
  {
  }

  lemma TakeWithin(a: seq<byte>, b: seq<byte>, k: int)
    requires 0 <= k <= |a|
    ensures TakeTo(a + b, k) == TakeTo(a, k)
  {
    assert (a + b)[..k] == a[..k];
  }

  lemma {:induction false} DechunkBody(cs: seq<Chunk>, last: Chunk, tail: seq<byte>, out: seq<byte>, limit: Option<int>)
    requires Body(cs, last) && Below(out, limit)
    ensures Dechunk(EncodeAll(cs) + (last.Line() + CRLF + tail), out, limit)
         == Ok(if limit.None? then out + Data(cs) else TakeTo(out + Data(cs), limit.value))
    decreases |cs|
  {
    hide Dechunk; hide Encode; hide TakeTo;
    var end := last.Line() + CRLF + tail;
    if cs == [] {
      assert EncodeAll(cs) + end == end;
      DechunkLine(last, tail, out, limit);
      assert out + [] == out;
      if limit.Some? {
        TakeAllOf(out, limit.value);
      }
    } else {
      var c, more := cs[0], out + cs[0].data;
      Regroup(Encode(c), EncodeAll(cs[1..]), end);
      DechunkOne(c, EncodeAll(cs[1..]) + end, out, limit);
      Regroup(out, c.data, Data(cs[1..]));
      if limit.Some? && |more| >= limit.value {
        TakeWithin(more, Data(cs[1..]), limit.value);
      } else {
        DechunkBody(cs[1..], last, tail, more, limit);
      }
    }
  }

  /**
   * For any well-formed chunked body, whatever follows its last size line, decoding
   * yields the concatenated chunk data, or the first `limit` bytes of it.
   */
  lemma DechunkRoundTrip(cs: seq<Chunk>, last: Chunk, tail: seq<byte>, limit: Option<int>)
    requires Body(cs, last) && (limit.Some? ==> limit.value >= 0)
    ensures Dechunk(EncodeAll(cs) + (last.Line() + CRLF + tail), [], limit)
         == Ok(if limit.None? || limit.value >= |Data(cs)| then Data(cs) else Data(cs)[..limit.value])
  {
    hide Dechunk; hide EncodeAll; hide Body;
    var data := Data(cs);
    assert [] + data == data;
    DechunkBody(cs, last, tail, [], limit);
    assert limit.Some? && limit.value >= |data| ==> TakeTo(data, limit.value) == data;
  }

  /** The two together: a body that arrives in any pieces is decoded to its data. */
  method DecodeBody(sock: Socket, first: seq<byte>, limit: Option<int>, ghost cs: seq<Chunk>, ghost last: Chunk,
                    ghost tail: seq<byte>) returns (body: seq<byte>)
    requires Body(cs, last) && (limit.Some? ==> limit.value >= 0)
    requires first + sock.pending == EncodeAll(cs) + (last.Line() + CRLF + tail)
    modifies sock
    ensures body == if limit.None? || limit.value >= |Data(cs)| then Data(cs) else Data(cs)[..limit.value]
  {
    hide Dechunk;
    DechunkRoundTrip(cs, last, tail, limit);
    ghost var ps;
    var r;
    r, ps := DecodeChunked(sock, first, limit);
    body := r.value;
  }
}
