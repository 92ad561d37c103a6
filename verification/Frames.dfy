/** WebSocket frames, sections 5.2 and 5.3 of RFC 6455. */
module Frames {
  import opened Wrappers
  import opened Sockets

  const OP_CONT: byte := 0x0
  const OP_TEXT: byte := 0x1

  /** What one receive yields: a frame, the end of the stream, or a TypeError on a cut header. */
  datatype Received =
    | Frame(fin: bool, opcode: byte, payload: seq<byte>, masked: bool)
    | Eof
    | Crash

  // ---- integers on the wire ----

  function ToBytes(n: nat, width: nat): seq<byte>
    decreases width
  {
    if width == 0 then [] else ToBytes(n / 256, width - 1) + [(n % 256) as byte]
  }

  function FromBytes(s: seq<byte>): nat {
    if s == [] then 0 else FromBytes(s[..|s| - 1]) * 256 + s[|s| - 1] as nat
  }

  function Pow256(width: nat): nat {
    if width == 0 then 1 else 256 * Pow256(width - 1)
  }

  /** The byte of value x, counted up from zero. */
  ghost function ByteWith(x: nat): (b: byte)
    requires x < 256
    ensures b as nat == x
  {
    if x == 0 then 0 else ByteWith(x - 1) + 1
  }

  lemma ByteOfInt(x: nat)
    requires x < 256
    ensures (x as byte) as nat == x
  {
    ByteIsItself(ByteWith(x));
  }

  lemma ByteIsItself(b: byte)
    ensures (b as nat) as byte == b
  {
  }

  lemma {:induction false} BytesRoundTrip(n: nat, width: nat)
    requires n < Pow256(width)
    ensures |ToBytes(n, width)| == width && FromBytes(ToBytes(n, width)) == n
    decreases width
  {
    if width > 0 {
      BytesRoundTrip(n / 256, width - 1);
      ByteOfInt(n % 256);
      var s := ToBytes(n, width);
      assert s[..|s| - 1] == ToBytes(n / 256, width - 1);
    }
  }

  /** The first byte is the most significant, as section 5.2 has it. */
  lemma {:induction false} BigEndian(b: byte, s: seq<byte>)
    ensures FromBytes([b] + s) == b as nat * Pow256(|s|) + FromBytes(s)
    decreases |s|
  {
    if s == [] {
      assert [b][..0] == [];
    } else {
      var front := s[..|s| - 1];
      assert ([b] + s)[..|s|] == [b] + front;
      BigEndian(b, front);
      ShiftDigit(b as nat, Pow256(|front|));
    }
  }

  lemma ShiftDigit(b: nat, p: nat)
    ensures (b * p) * 256 == b * (256 * p)
  {
  }

  // ---- masking ----

  function Mask(payload: seq<byte>, key: seq<byte>): (r: seq<byte>)
    requires |key| == 4
    ensures |r| == |payload|
  {
    seq(|payload|, i requires 0 <= i < |payload| => payload[i] ^ key[i % 4])
  }

  lemma MaskTwice(payload: seq<byte>, key: seq<byte>)
    requires |key| == 4
    ensures Mask(Mask(payload, key), key) == payload
  {
    forall i | 0 <= i < |payload|
      ensures Mask(Mask(payload, key), key)[i] == payload[i]
    {
      XorTwice(payload[i], key[i % 4]);
    }
  }

  /** What masking changes in a byte is the byte of the key whose turn it is, the four over and over. */
  lemma MaskTurns(payload: seq<byte>, key: seq<byte>, i: nat)
    requires |key| == 4 && i < |payload|
    ensures Mask(payload, key)[i] ^ payload[i]
         == if i % 4 == 0 then key[0] else if i % 4 == 1 then key[1] else if i % 4 == 2 then key[2] else key[3]
  {
    XorTwice(key[i % 4], payload[i]);
  }

  lemma XorTwice(b: byte, k: byte)
    ensures (b ^ k) ^ k == b
  {
  }

  // ---- building ----

  function FirstByte(fin: bool, opcode: byte): byte {
    (if fin then 0x80 else 0) | opcode
  }

  /** The length form behind the mask bit: seven bits, or a marker and two or eight bytes. */
  function LengthBytes(n: nat, masked: bool): seq<byte> {
    var bit: byte := if masked then 0x80 else 0;
    if n < 126 then [bit | (n as byte)]
    else if n < 65536 then [bit | 126] + ToBytes(n, 2)
    else [bit | 127] + ToBytes(n, 8)
  }

  /** build_frame */
  function BuildFrame(opcode: byte, payload: seq<byte>, fin: bool, key: seq<byte>): seq<byte>
    requires |key| == 4
  {
    [FirstByte(fin, opcode)] + LengthBytes(|payload|, true) + key + Mask(payload, key)
  }

  /** A frame as a server sends it: no mask bit, no key, the payload as it is. */
  function PlainFrame(opcode: byte, payload: seq<byte>, fin: bool): seq<byte> {
    [FirstByte(fin, opcode)] + LengthBytes(|payload|, false) + payload
  }

  // ---- reading, as a function of the stream ----

  /** The payload after the length n and the mask bit are known. */
  function ReadPayload(s: seq<byte>, fin: bool, opcode: byte, masked: bool, n: nat): (Received, seq<byte>) {
    var (key, afterKey) := if masked then TakeExact(s, 4) else (Some([]), s);
    var (body, rest) := TakeExact(afterKey, n);
    var payload := if body.Some? then body.value else [];
    if masked && key.Some? then (Frame(fin, opcode, Mask(payload, key.value), masked), rest)
    else (Frame(fin, opcode, payload, masked), rest)
  }

  predicate FinOf(b0: byte) { b0 & 0x80 != 0 }

  function OpcodeOf(b0: byte): byte { b0 & 0x0F }

  predicate MaskedOf(b1: byte) { b1 & 0x80 != 0 }

  function LengthOf(b1: byte): nat { (b1 & 0x7F) as nat }

  /** recv_frame on the rest of the stream: what it returns and what it leaves. */
  function ReadFrame(s: seq<byte>): (Received, seq<byte>) {
    var (hdr, s1) := TakeExact(s, 2);
    if hdr.None? then (Eof, s1) else ReadAfterHeader(hdr.value[0], hdr.value[1], s1)
  }

  function ReadAfterHeader(b0: byte, b1: byte, s: seq<byte>): (Received, seq<byte>) {
    var n := LengthOf(b1);
    if n == 126 || n == 127 then
      var (ext, rest) := TakeExact(s, if n == 126 then 2 else 8);
      if ext.None? then (Crash, rest)
      else ReadPayload(rest, FinOf(b0), OpcodeOf(b0), MaskedOf(b1), FromBytes(ext.value))
    else ReadPayload(s, FinOf(b0), OpcodeOf(b0), MaskedOf(b1), n)
  }

  method RecvPayload(sock: Socket, fin: bool, opcode: byte, masked: bool, n: nat) returns (r: Received)
    modifies sock
    ensures (r, sock.pending) == ReadPayload(old(sock.pending), fin, opcode, masked, n)
  {
    hide Mask;
    var key := Some([]);
    if masked { key := sock.RecvExact(4); }
    var got := sock.RecvExact(n);
    var payload := if got.Some? then got.value else [];
    if masked && key.Some? {
      payload := Mask(payload, key.value);
    }
    return Frame(fin, opcode, payload, masked);
  }

  /** recv_frame: for every stream the outcome does not depend on the pieces it comes in. */
  method RecvFrame(sock: Socket) returns (r: Received)
    modifies sock
    ensures (r, sock.pending) == ReadFrame(old(sock.pending))
  {
    hide FinOf; hide OpcodeOf; hide MaskedOf; hide LengthOf; hide FromBytes; hide ReadPayload;
    var hdr := sock.RecvExact(2);
    if hdr.None? { return Eof; }
    var b0, b1 := hdr.value[0], hdr.value[1];
    var fin := FinOf(b0);
    var opcode := OpcodeOf(b0);
    var masked := MaskedOf(b1);
    var n := LengthOf(b1);
    if n == 126 {
      var ext := sock.RecvExact(2);
      if ext.None? { return Crash; }
      n := FromBytes(ext.value);
    } else if n == 127 {
      var ext := sock.RecvExact(8);
      if ext.None? { return Crash; }
      n := FromBytes(ext.value);
    }
    r := RecvPayload(sock, fin, opcode, masked, n);
  }

  // ---- the round trip ----

  lemma TakeAppend(a: seq<byte>, b: seq<byte>)
    ensures TakeExact(a + b, |a|) == (Some(a), b)
  {
    assert (a + b)[..|a|] == a && (a + b)[|a|..] == b;
  }

  lemma HeaderBits(fin: bool, opcode: byte)
    requires opcode < 16
    ensures FinOf(FirstByte(fin, opcode)) == fin && OpcodeOf(FirstByte(fin, opcode)) == opcode
  {
  }

  /** The fields of the two header bytes as numbers, whatever the reserved bits are. */
  lemma HeaderFields(b0: byte, b1: byte)
    ensures FinOf(b0) <==> b0 as nat >= 128
    ensures OpcodeOf(b0) as nat == b0 as nat % 16
    ensures MaskedOf(b1) <==> b1 as nat >= 128
    ensures LengthOf(b1) == b1 as nat % 128
  {
    TopBit(b0);
    TopBit(b1);
    LowBits(b0);
    LowBits(b1);
  }

  lemma TopBit(b: byte)
    ensures b & 0x80 != 0 <==> b as nat >= 128
  {
    assert b & 0x80 != 0 <==> b >= 0x80;
  }

  lemma LowBits(b: byte)
    ensures (b & 0x0F) as nat == b as nat % 16 && (b & 0x7F) as nat == b as nat % 128
  {
    assert b & 0x0F == b % 16;
    assert b & 0x7F == b % 128;
  }

  lemma LengthBits(b: byte)
    requires b < 0x80
    ensures MaskedOf(0x80 | b) && LengthOf(0x80 | b) == b as nat
    ensures !MaskedOf(0 | b) && LengthOf(0 | b) == b as nat
  {
    assert (0x80 | b) & 0x7F == b;
    assert (0 | b) & 0x7F == b;
    assert (0 | b) & 0x80 == 0;
  }

  lemma PayloadRoundTrip(payload: seq<byte>, key: seq<byte>, rest: seq<byte>, fin: bool, opcode: byte)
    requires |key| == 4
    ensures ReadPayload(key + (Mask(payload, key) + rest), fin, opcode, true, |payload|)
         == (Frame(fin, opcode, payload, true), rest)
  {
    TakeAppend(key, Mask(payload, key) + rest);
    TakeAppend(Mask(payload, key), rest);
    MaskTwice(payload, key);
  }

  lemma PlainPayload(payload: seq<byte>, rest: seq<byte>, fin: bool, opcode: byte)
    ensures ReadPayload(payload + rest, fin, opcode, false, |payload|) == (Frame(fin, opcode, payload, false), rest)
  {
    TakeAppend(payload, rest);
  }

  /** The three length forms, with and without the mask bit, each read back to what it was written for. */
  lemma LengthRoundTrip(b0: byte, n: nat, masked: bool, s: seq<byte>)
    requires n < Pow256(8)
    ensures LengthBytes(n, masked) != []
    ensures ReadAfterHeader(b0, LengthBytes(n, masked)[0], LengthBytes(n, masked)[1..] + s)
         == ReadPayload(s, FinOf(b0), OpcodeOf(b0), masked, n)
  {
    hide FinOf; hide OpcodeOf; hide MaskedOf; hide LengthOf; hide ReadPayload;
    var len := LengthBytes(n, masked);
    if n < 126 {
      ByteOfInt(n);
      LengthBits(n as byte);
      assert len[1..] + s == s;
    } else {
      LongLengthRoundTrip(b0, n, masked, s);
    }
  }

  lemma LongLengthRoundTrip(b0: byte, n: nat, masked: bool, s: seq<byte>)
    requires 126 <= n < Pow256(8)
    ensures LengthBytes(n, masked) != []
    ensures ReadAfterHeader(b0, LengthBytes(n, masked)[0], LengthBytes(n, masked)[1..] + s)
         == ReadPayload(s, FinOf(b0), OpcodeOf(b0), masked, n)
  {
    hide FinOf; hide OpcodeOf; hide MaskedOf; hide LengthOf; hide ReadPayload; hide ToBytes; hide FromBytes;
    hide Pow256;
    LengthBits(126);
    LengthBits(127);
    Pow256Values();
    var width := if n < 65536 then 2 else 8;
    BytesRoundTrip(n, width);
    assert LengthBytes(n, masked)[1..] == ToBytes(n, width);
    TakeAppend(ToBytes(n, width), s);
  }

  lemma Pow256Values()
    ensures Pow256(2) == 65536 && Pow256(8) == 18446744073709551616
  {
    assert Pow256(4) == 4294967296;
    assert Pow256(6) == 256 * 256 * Pow256(4);
  }

  /** A built frame is read back whole, whatever its length form, and nothing after it is touched. */
  lemma FrameRoundTrip(opcode: byte, payload: seq<byte>, fin: bool, key: seq<byte>, rest: seq<byte>)
    requires |key| == 4 && opcode < 16 && |payload| < Pow256(8)
    ensures ReadFrame(BuildFrame(opcode, payload, fin, key) + rest) == (Frame(fin, opcode, payload, true), rest)
  {
    hide LengthBytes; hide ReadPayload; hide FirstByte; hide Mask; hide Pow256; hide ReadFrame;
    var tail := key + (Mask(payload, key) + rest);
    var len := LengthBytes(|payload|, true);
    HeaderRead(fin, opcode, |payload|, true, tail);
    assert BuildFrame(opcode, payload, fin, key) + rest == [FirstByte(fin, opcode)] + len + tail;
    PayloadRoundTrip(payload, key, rest, fin, opcode);
  }

  /** A server's frame is read back the same way, its payload as it came. */
  lemma PlainRoundTrip(opcode: byte, payload: seq<byte>, fin: bool, rest: seq<byte>)
    requires opcode < 16 && |payload| < Pow256(8)
    ensures ReadFrame(PlainFrame(opcode, payload, fin) + rest) == (Frame(fin, opcode, payload, false), rest)
  {
    hide LengthBytes; hide ReadPayload; hide FirstByte; hide Pow256; hide ReadFrame;
    var len := LengthBytes(|payload|, false);
    HeaderRead(fin, opcode, |payload|, false, payload + rest);
    assert PlainFrame(opcode, payload, fin) + rest == [FirstByte(fin, opcode)] + len + (payload + rest);
    PlainPayload(payload, rest, fin, opcode);
  }

  /** A written header is read as what it was written for. */
  lemma HeaderRead(fin: bool, opcode: byte, n: nat, masked: bool, tail: seq<byte>)
    requires opcode < 16 && n < Pow256(8)
    ensures ReadFrame([FirstByte(fin, opcode)] + LengthBytes(n, masked) + tail)
         == ReadPayload(tail, fin, opcode, masked, n)
  {
    hide FinOf; hide OpcodeOf; hide LengthBytes; hide ReadPayload; hide ReadAfterHeader; hide FirstByte; hide Pow256;
    var b0, len := FirstByte(fin, opcode), LengthBytes(n, masked);
    LengthRoundTrip(b0, n, masked, tail);
    var hdr := [b0, len[0]];
    assert [b0] + len + tail == hdr + (len[1..] + tail);
    TakeAppend(hdr, len[1..] + tail);
    HeaderBits(fin, opcode);
  }

  /** The examples of section 5.7: one text frame as a server sends it, and the same masked. */
  lemma Hello()
    ensures ReadFrame([0x81, 0x05, 0x48, 0x65, 0x6c, 0x6c, 0x6f])
         == (Frame(true, 0x1, [0x48, 0x65, 0x6c, 0x6c, 0x6f], false), [])
    ensures ReadFrame([0x81, 0x85, 0x37, 0xfa, 0x21, 0x3d, 0x7f, 0x9f, 0x4d, 0x51, 0x58])
         == (Frame(true, 0x1, [0x48, 0x65, 0x6c, 0x6c, 0x6f], true), [])
  {
    hide ReadFrame;
    var text: seq<byte> := [0x48, 0x65, 0x6c, 0x6c, 0x6f];
    var key: seq<byte> := [0x37, 0xfa, 0x21, 0x3d];
    PlainRoundTrip(0x1, text, true, []);
    FrameRoundTrip(0x1, text, true, key, []);
    HeaderOfFive();
    assert PlainFrame(0x1, text, true) + [] == [0x81, 0x05, 0x48, 0x65, 0x6c, 0x6c, 0x6f];
    assert Mask(text, key) == [0x7f, 0x9f, 0x4d, 0x51, 0x58];
    assert BuildFrame(0x1, text, true, key) + []
        == [0x81, 0x85, 0x37, 0xfa, 0x21, 0x3d, 0x7f, 0x9f, 0x4d, 0x51, 0x58];
  }

  lemma HeaderOfFive()
    ensures FirstByte(true, 0x1) == 0x81 && LengthBytes(5, false) == [0x05] && LengthBytes(5, true) == [0x85]
    ensures 5 < Pow256(8)
  {
    Pow256Values();
    ByteIsItself(5);
    ByteOfInt(5);
    var five := 5 as byte;
    assert five == 0x05;
    assert 0x80 | five == 0x85 && 0 | five == 0x05;
  }

  // ---- a stream that ends inside a frame ----

  /** Where the header of a frame ends and its masking key, or else its payload, begins. */
  function HeaderEnd(n: nat): nat {
    if n < 126 then 2 else if n < 65536 then 4 else 10
  }

  /**
   * What a built frame that was cut after n bytes comes back as: a clean end before
   * the second byte, an error inside a long length, and from there on, without a word,
   * a frame with nothing in it.
   */
  lemma CutFrame(opcode: byte, payload: seq<byte>, fin: bool, key: seq<byte>, n: nat)
    requires |key| == 4 && opcode < 16 && |payload| < Pow256(8)
    requires n < |BuildFrame(opcode, payload, fin, key)|
    ensures ReadFrame(BuildFrame(opcode, payload, fin, key)[..n])
         == (if n < 2 then Eof else if n < HeaderEnd(|payload|) then Crash else Frame(fin, opcode, [], true), [])
  {
    hide LengthBytes; hide ReadFrame; hide FirstByte; hide Mask; hide Pow256;
    assert BuildFrame(opcode, payload, fin, key)
        == [FirstByte(fin, opcode)] + LengthBytes(|payload|, true) + (key + Mask(payload, key));
    LengthForms(|payload|, true);
    CutAnyFrame(fin, opcode, |payload|, true, key + Mask(payload, key), n);
  }

  /** A server's frame that was cut, the same; only its payload has to be cut for it to come back empty. */
  lemma CutPlain(opcode: byte, payload: seq<byte>, fin: bool, n: nat)
    requires opcode < 16 && |payload| < Pow256(8) && n < |PlainFrame(opcode, payload, fin)|
    ensures ReadFrame(PlainFrame(opcode, payload, fin)[..n])
         == (if n < 2 then Eof else if n < HeaderEnd(|payload|) then Crash else Frame(fin, opcode, [], false), [])
  {
    hide LengthBytes; hide ReadFrame; hide FirstByte; hide Pow256;
    LengthForms(|payload|, false);
    CutAnyFrame(fin, opcode, |payload|, false, payload, n);
  }

  lemma CutAnyFrame(fin: bool, opcode: byte, m: nat, masked: bool, tail: seq<byte>, n: nat)
    requires opcode < 16 && m < Pow256(8) && |tail| == m + if masked then 4 else 0
    requires n < 1 + |LengthBytes(m, masked)| + |tail|
    ensures ReadFrame(([FirstByte(fin, opcode)] + LengthBytes(m, masked) + tail)[..n])
         == (if n < 2 then Eof else if n < HeaderEnd(m) then Crash else Frame(fin, opcode, [], masked), [])
  {
    hide FinOf; hide OpcodeOf; hide LengthBytes; hide ReadPayload; hide ReadAfterHeader; hide FirstByte;
    hide Pow256;
    var b0, len := FirstByte(fin, opcode), LengthBytes(m, masked);
    var f := [b0] + len + tail;
    LengthForms(m, masked);
    HeaderBits(fin, opcode);
    if n >= 2 {
      var s := f[..n];
      assert s[..2] == [b0, len[0]] && s[2..] == f[2..n];
      var x := f[2..n];
      assert |x| < |len| - 1 + |tail|;
      assert forall i :: 0 <= i < |len| - 1 && i < |x| ==> x[i] == len[1..][i];
      CutAfterHeader(b0, m, masked, x);
    }
  }

  lemma LengthForms(n: nat, masked: bool)
    requires n < Pow256(8)
    ensures |LengthBytes(n, masked)| == HeaderEnd(n) - 1
  {
    hide ToBytes; hide Pow256;
    Pow256Values();
    if 126 <= n {
      BytesRoundTrip(n, if n < 65536 then 2 else 8);
    }
  }

  lemma CutAfterHeader(b0: byte, m: nat, masked: bool, x: seq<byte>)
    requires m < Pow256(8) && LengthBytes(m, masked) != []
    requires |x| < HeaderEnd(m) - 2 + m + if masked then 4 else 0
    requires |LengthBytes(m, masked)| == HeaderEnd(m) - 1
    requires forall i :: 0 <= i < HeaderEnd(m) - 2 && i < |x| ==> x[i] == LengthBytes(m, masked)[1..][i]
    ensures ReadAfterHeader(b0, LengthBytes(m, masked)[0], x)
         == (if |x| < HeaderEnd(m) - 2 then Crash else Frame(FinOf(b0), OpcodeOf(b0), [], masked), [])
  {
    hide FinOf; hide OpcodeOf; hide LengthOf; hide MaskedOf; hide ReadPayload; hide ToBytes; hide FromBytes;
    hide Pow256;
    if m < 126 {
      ByteOfInt(m);
      LengthBits(m as byte);
      CutPayload(x, FinOf(b0), OpcodeOf(b0), masked, m);
    } else {
      LengthBits(126);
      LengthBits(127);
      Pow256Values();
      var width := if m < 65536 then 2 else 8;
      BytesRoundTrip(m, width);
      assert LengthBytes(m, masked)[1..] == ToBytes(m, width);
      if |x| >= width {
        assert x[..width] == ToBytes(m, width);
        CutPayload(x[width..], FinOf(b0), OpcodeOf(b0), masked, m);
      }
    }
  }

  /** A key or a payload that is cut leaves an empty payload. */
  lemma CutPayload(x: seq<byte>, fin: bool, opcode: byte, masked: bool, m: nat)
    requires |x| < m + if masked then 4 else 0
    ensures ReadPayload(x, fin, opcode, masked, m) == (Frame(fin, opcode, [], masked), [])
  {
  }

  // ---- streams of frames ----

  datatype Outgoing = Outgoing(fin: bool, opcode: byte, payload: seq<byte>) {
    predicate Sendable() {
      opcode < 16 && |payload| < Pow256(8)
    }
  }

  /** A frame on the wire: masked with a key, as a client sends it, or plain, as a server does. */
  datatype Wired = Wired(frame: Outgoing, key: Option<seq<byte>>) {
    predicate Sendable() {
      frame.Sendable() && (key.Some? ==> |key.value| == 4)
    }

    function Bytes(): seq<byte>
      requires Sendable()
    {
      match key
      case Some(k) => BuildFrame(frame.opcode, frame.payload, frame.fin, k)
      case None => PlainFrame(frame.opcode, frame.payload, frame.fin)
    }
  }

  predicate AllSendable(fs: seq<Wired>) {
    forall i :: 0 <= i < |fs| ==> fs[i].Sendable()
  }

  function BytesOf(fs: seq<Wired>): seq<byte>
    requires AllSendable(fs)
  {
    if fs == [] then [] else fs[0].Bytes() + BytesOf(fs[1..])
  }

  /** The frames read from a stream until something other than a frame comes. */
  function ReadAll(s: seq<byte>, most: nat): seq<Received>
    decreases most
  {
    if most == 0 then [] else
    var (r, rest) := ReadFrame(s);
    if r.Frame? then [r] + ReadAll(rest, most - 1) else [r]
  }

  function AsReceived(fs: seq<Wired>): seq<Received> {
    seq(|fs|, i requires 0 <= i < |fs| =>
      Frame(fs[i].frame.fin, fs[i].frame.opcode, fs[i].frame.payload, fs[i].key.Some?))
  }

  /** Any list of frames, masked and plain, comes back in order, followed by the end of the stream. */
  lemma {:induction false} StreamRoundTrip(fs: seq<Wired>)
    requires AllSendable(fs)
    ensures ReadAll(BytesOf(fs), |fs| + 1) == AsReceived(fs) + [Eof]
    decreases |fs|
  {
    hide ReadFrame; hide BuildFrame; hide PlainFrame;
    if fs == [] {
      assert ReadFrame([]).0 == Eof by { EmptyIsEof(); }
    } else {
      var f := fs[0].frame;
      match fs[0].key {
        case Some(k) => FrameRoundTrip(f.opcode, f.payload, f.fin, k, BytesOf(fs[1..]));
        case None => PlainRoundTrip(f.opcode, f.payload, f.fin, BytesOf(fs[1..]));
      }
      StreamRoundTrip(fs[1..]);
      assert AsReceived(fs) == [Frame(f.fin, f.opcode, f.payload, fs[0].key.Some?)] + AsReceived(fs[1..]);
    }
  }

  lemma EmptyIsEof()
    ensures ReadFrame([]) == (Eof, [])
  {
  }

  /** Receiving repeatedly reads exactly the frames of the stream, in whatever pieces it comes. */
  method RecvAll(sock: Socket, most: nat) returns (rs: seq<Received>)
    modifies sock
    ensures rs == ReadAll(old(sock.pending), most)
    ensures forall fs: seq<Wired> :: AllSendable(fs) && most == |fs| + 1 && old(sock.pending) == BytesOf(fs) ==>
              rs == AsReceived(fs) + [Eof]
  {
    hide ReadFrame; hide ReadAll; hide BytesOf; hide AsReceived; hide AllSendable;
    forall fs: seq<Wired> | AllSendable(fs) && most == |fs| + 1 && sock.pending == BytesOf(fs)
      ensures ReadAll(sock.pending, most) == AsReceived(fs) + [Eof]
    {
      StreamRoundTrip(fs);
    }
    rs := [];
    var k := 0;
    ghost var all := ReadAll(sock.pending, most);
    while k < most
      invariant 0 <= k <= most
      invariant rs + ReadAll(sock.pending, most - k) == all
    {
      ReadAllStep(sock.pending, most - k);
      var r := RecvFrame(sock);
      rs := rs + [r];
      k := k + 1;
      if !r.Frame? { return; }
    }
    ReadAllNone(sock.pending);
  }

  lemma ReadAllStep(s: seq<byte>, most: nat)
    requires most > 0
    ensures var (r, rest) := ReadFrame(s);
            ReadAll(s, most) == [r] + (if r.Frame? then ReadAll(rest, most - 1) else [])
  {
  }

  lemma ReadAllNone(s: seq<byte>)
    ensures ReadAll(s, 0) == []
  {
  }

  // ---- fragmented messages ----

  /** The pieces of a text between bars, as str.split does it. */
  function Split(s: seq<byte>, bar: byte): (r: seq<seq<byte>>)
    ensures |r| > 0
  {
    if s == [] then [[]]
    else if s[0] == bar then [[]] + Split(s[1..], bar)
    else var r := Split(s[1..], bar); [[s[0]] + r[0]] + r[1..]
  }

  /** load_payload of a frag-text line: one frame a piece, the last one final. */
  function Fragments(rest: seq<byte>): seq<Outgoing> {
    var frags := Split(rest, 0x7C);
    seq(|frags|, i requires 0 <= i < |frags| =>
      Outgoing(i == |frags| - 1, if i == 0 then OP_TEXT else OP_CONT, frags[i]))
  }

  /** A message of section 5.4: a first frame with an opcode, continuations, one final frame at the end. */
  ghost predicate IsMessage(fs: seq<Outgoing>, opcode: byte) {
    && |fs| > 0
    && fs[0].opcode == opcode
    && (forall i :: 0 < i < |fs| ==> fs[i].opcode == OP_CONT)
    && (forall i :: 0 <= i < |fs| ==> (fs[i].fin <==> i == |fs| - 1))
  }

  function Joined(fs: seq<Outgoing>): seq<byte> {
    if fs == [] then [] else fs[0].payload + Joined(fs[1..])
  }

  function Unbarred(s: seq<byte>, bar: byte): seq<byte> {
    if s == [] then [] else (if s[0] == bar then [] else [s[0]]) + Unbarred(s[1..], bar)
  }

  function JoinedPieces(r: seq<seq<byte>>): seq<byte> {
    if r == [] then [] else r[0] + JoinedPieces(r[1..])
  }

  lemma {:induction false} SplitJoins(s: seq<byte>, bar: byte)
    ensures JoinedPieces(Split(s, bar)) == Unbarred(s, bar)
    decreases |s|
  {
    if s == [] {
      var one: seq<seq<byte>> := [[]];
      assert one[1..] == [];
    } else {
      SplitJoins(s[1..], bar);
      var r := Split(s[1..], bar);
      if s[0] == bar {
        assert ([[]] + r)[1..] == r;
      } else {
        var head, rest := [s[0]] + r[0], r[1..];
        assert ([head] + rest)[1..] == rest && ([head] + rest)[0] == head;
        assert head + JoinedPieces(rest) == [s[0]] + (r[0] + JoinedPieces(rest));
      }
    }
  }

  /** The payloads with a bar between every two. */
  function Barred(r: seq<seq<byte>>, bar: byte): seq<byte> {
    if r == [] then [] else if |r| == 1 then r[0] else r[0] + [bar] + Barred(r[1..], bar)
  }

  /** Splitting is undone by putting the bars back, and leaves no bar behind. */
  lemma {:induction false} SplitInverse(s: seq<byte>, bar: byte)
    ensures Barred(Split(s, bar), bar) == s
    ensures forall i :: 0 <= i < |Split(s, bar)| ==> bar !in Split(s, bar)[i]
    decreases |s|
  {
    if s != [] {
      SplitInverse(s[1..], bar);
      var r := Split(s[1..], bar);
      if s[0] == bar {
        assert ([[]] + r)[1..] == r;
        assert [] + [bar] + s[1..] == s;
      } else {
        var head, rest := [s[0]] + r[0], r[1..];
        assert ([head] + rest)[1..] == rest && ([head] + rest)[0] == head;
        assert forall i :: 0 < i < |r| ==> ([head] + rest)[i] == r[i];
        PrefixFirst(s[0], r, bar);
        assert [s[0]] + s[1..] == s;
      }
    }
  }

  lemma PrefixFirst(b: byte, r: seq<seq<byte>>, bar: byte)
    requires r != []
    ensures Barred([[b] + r[0]] + r[1..], bar) == [b] + Barred(r, bar)
  {
    assert ([[b] + r[0]] + r[1..])[1..] == r[1..];
    if |r| > 1 {
      assert [b] + r[0] + [bar] + Barred(r[1..], bar) == [b] + (r[0] + [bar] + Barred(r[1..], bar));
    }
  }

  function Payloads(fs: seq<Outgoing>): seq<seq<byte>> {
    seq(|fs|, i requires 0 <= i < |fs| => fs[i].payload)
  }

  lemma {:induction false} JoinedIsPieces(fs: seq<Outgoing>, r: seq<seq<byte>>)
    requires |fs| == |r| && forall i :: 0 <= i < |r| ==> fs[i].payload == r[i]
    ensures Joined(fs) == JoinedPieces(r)
    decreases |r|
  {
    if r != [] {
      JoinedIsPieces(fs[1..], r[1..]);
    }
  }

  /**
   * A frag-text line is one text message whose payload is the line without its bars,
   * cut at every bar and nowhere else.
   */
  lemma FragmentsAreAMessage(rest: seq<byte>)
    ensures IsMessage(Fragments(rest), OP_TEXT)
    ensures Joined(Fragments(rest)) == Unbarred(rest, 0x7C)
    ensures Barred(Payloads(Fragments(rest)), 0x7C) == rest
    ensures forall i :: 0 <= i < |Fragments(rest)| ==> 0x7C !in Fragments(rest)[i].payload
  {
    SplitJoins(rest, 0x7C);
    SplitInverse(rest, 0x7C);
    JoinedIsPieces(Fragments(rest), Split(rest, 0x7C));
    assert Payloads(Fragments(rest)) == Split(rest, 0x7C);
  }
}
