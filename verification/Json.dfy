/** Writing, scanning and reading JSON strings, on bytes. */
module Json {
  import opened Wrappers

  const QUOTE: byte := 0x22
  const BACKSLASH: byte := 0x5C
  const NEWLINE: byte := 0x0A
  const RETURN: byte := 0x0D
  const TAB: byte := 0x09

  function HexDigit(n: byte): byte {
    if n < 10 then 0x30 + n else 0x57 + n
  }

  /** What writeJsonEscaped writes for one byte. */
  function EscapeByte(ch: byte): seq<byte> {
    if ch == QUOTE then [BACKSLASH, QUOTE]
    else if ch == BACKSLASH then [BACKSLASH, BACKSLASH]
    else if ch == NEWLINE then [BACKSLASH, 0x6E]
    else if ch == RETURN then [BACKSLASH, 0x72]
    else if ch == TAB then [BACKSLASH, 0x74]
    else if ch < 0x20 then [BACKSLASH, 0x75, 0x30, 0x30, HexDigit(ch >> 4), HexDigit(ch & 0xF)]
    else [ch]
  }

  function Escape(s: seq<byte>): seq<byte>
    decreases |s|
  {
    if s == [] then [] else Escape(s[..|s| - 1]) + EscapeByte(s[|s| - 1])
  }

  /** Reading one escape pair; an unknown one stays as it is. */
  function UnescapePair(c: byte): seq<byte> {
    if c == QUOTE then [QUOTE]
    else if c == BACKSLASH then [BACKSLASH]
    else if c == 0x6E then [NEWLINE]
    else if c == 0x72 then [RETURN]
    else if c == 0x74 then [TAB]
    else [BACKSLASH, c]
  }

  function Unescape(s: seq<byte>): seq<byte>
    decreases |s|
  {
    if s == [] then []
    else if s[0] == BACKSLASH && |s| > 1 then UnescapePair(s[1]) + Unescape(s[2..])
    else [s[0]] + Unescape(s[1..])
  }

  /** The first quote at or after i that no backslash escapes, or the end of the body. */
  function StringEnd(body: seq<byte>, i: nat): (r: nat)
    requires i <= |body|
    ensures i <= r <= |body|
    decreases |body| - i
  {
    if i == |body| || body[i] == QUOTE then i
    else if body[i] == BACKSLASH then (if i + 1 == |body| then i + 1 else StringEnd(body, i + 2))
    else StringEnd(body, i + 1)
  }

  // ---- the loops ----

  method FindStringEnd(body: seq<byte>, start: nat) returns (i: nat)
    ensures i == if start <= |body| then StringEnd(body, start) else start
  {
    i := start;
    var inEscape := false;
    while i < |body|
      invariant start <= |body| ==> start <= i <= |body|
      invariant start > |body| ==> i == start
      invariant inEscape ==> i > start
      invariant start <= |body| ==>
                  StringEnd(body, start) ==
                  if inEscape then (if i == |body| then i else StringEnd(body, i + 1)) else StringEnd(body, i)
    {
      if inEscape {
        inEscape := false;
        i := i + 1;
        continue;
      }
      if body[i] == BACKSLASH {
        inEscape := true;
        i := i + 1;
        continue;
      }
      if body[i] == QUOTE { break; }
      i := i + 1;
    }
  }

  method WriteEscaped(s: seq<byte>) returns (out: seq<byte>)
    ensures out == Escape(s)
  {
    out := [];
    for k := 0 to |s|
      invariant out == Escape(s[..k])
    {
      var ch := s[k];
      match ch {
        case 0x22 => out := out + [BACKSLASH, QUOTE];
        case 0x5C => out := out + [BACKSLASH, BACKSLASH];
        case 0x0A => out := out + [BACKSLASH, 0x6E];
        case 0x0D => out := out + [BACKSLASH, 0x72];
        case 0x09 => out := out + [BACKSLASH, 0x74];
        case _ =>
          if ch < 0x20 {
            out := out + [BACKSLASH, 0x75, 0x30, 0x30, HexDigit(ch >> 4), HexDigit(ch & 0xF)];
          } else {
            out := out + [ch];
          }
      }
      assert s[..k + 1][..k] == s[..k];
    }
    assert s[..|s|] == s;
  }

  lemma UnescapeStep(s: seq<byte>, i: nat)
    requires i < |s|
    ensures s[i] == BACKSLASH && i + 1 < |s| ==> Unescape(s[i..]) == UnescapePair(s[i + 1]) + Unescape(s[i + 2..])
    ensures !(s[i] == BACKSLASH && i + 1 < |s|) ==> Unescape(s[i..]) == [s[i]] + Unescape(s[i + 1..])
  {
    var rest := s[i..];
    assert rest[1..] == s[i + 1..];
    if i + 1 < |s| {
      assert rest[2..] == s[i + 2..];
    }
  }

  method ReadUnescaped(s: seq<byte>) returns (result: seq<byte>)
    ensures result == Unescape(s)
  {
    hide Unescape;
    result := [];
    var i := 0;
    assert s[0..] == s;
    while i < |s|
      invariant 0 <= i <= |s|
      invariant Unescape(s) == result + Unescape(s[i..])
    {
      UnescapeStep(s, i);
      if s[i] == BACKSLASH && i + 1 < |s| {
        var c := s[i + 1];
        ghost var before := result;
        if c == QUOTE { result := result + [QUOTE]; }
        else if c == BACKSLASH { result := result + [BACKSLASH]; }
        else if c == 0x6E { result := result + [NEWLINE]; }
        else if c == 0x72 { result := result + [RETURN]; }
        else if c == 0x74 { result := result + [TAB]; }
        else { result := result + [s[i]]; result := result + [s[i + 1]]; }
        assert result == before + UnescapePair(c);
        i := i + 2;
      } else {
        result := result + [s[i]];
        i := i + 1;
      }
    }
    UnescapeNothing();
    assert s[i..] == [];
  }

  lemma UnescapeNothing()
    ensures Unescape([]) == []
  {
  }

  // ---- the scanner stops at the closing quote ----

  /** Scanning is the same wherever the scanned text stands. */
  lemma {:induction false} StringEndShift(pre: seq<byte>, body: seq<byte>, i: nat)
    requires i <= |body|
    ensures StringEnd(pre + body, |pre| + i) == |pre| + StringEnd(body, i)
    decreases |body| - i
  {
    if i < |body| {
      assert (pre + body)[|pre| + i] == body[i];
      if body[i] == BACKSLASH && i + 1 < |body| {
        StringEndShift(pre, body, i + 2);
      } else if body[i] != QUOTE && body[i] != BACKSLASH {
        StringEndShift(pre, body, i + 1);
      }
    }
  }

  lemma EscapedByteIsSkipped(ch: byte, rest: seq<byte>)
    ensures StringEnd(EscapeByte(ch) + rest, 0) == |EscapeByte(ch)| + StringEnd(rest, 0)
  {
    var e := EscapeByte(ch);
    var body := e + rest;
    StringEndShift(e, rest, 0);
    if |e| == 6 {
      assert body[..6] == e;
      assert HexDigit(ch >> 4) != QUOTE && HexDigit(ch >> 4) != BACKSLASH;
      assert HexDigit(ch & 0xF) != QUOTE && HexDigit(ch & 0xF) != BACKSLASH;
      assert StringEnd(body, 0) == StringEnd(body, 2) == StringEnd(body, 3) == StringEnd(body, 4);
      assert StringEnd(body, 4) == StringEnd(body, 5) == StringEnd(body, 6);
    }
  }

  lemma {:induction false} EscapedIsSkipped(s: seq<byte>, rest: seq<byte>)
    ensures StringEnd(Escape(s) + rest, 0) == |Escape(s)| + StringEnd(rest, 0)
    decreases |s|
  {
    if s == [] {
      assert Escape(s) + rest == rest;
    } else {
      var front, last := s[..|s| - 1], EscapeByte(s[|s| - 1]);
      assert Escape(s) + rest == Escape(front) + (last + rest);
      EscapedIsSkipped(front, last + rest);
      EscapedByteIsSkipped(s[|s| - 1], rest);
    }
  }

  /** A character behind a backslash that is not itself escaped. */
  predicate Escaped(body: seq<byte>, start: nat, k: nat)
    requires k <= |body|
    decreases k
  {
    k > start && body[k - 1] == 0x5C && !Escaped(body, start, k - 1)
  }

  /** In any text the scan stops at the first quote that is not escaped, or at the end if there is none. */
  lemma {:induction false} EndIsFirstQuote(body: seq<byte>, start: nat, i: nat)
    requires start <= i <= |body| && !Escaped(body, start, i)
    ensures var r := StringEnd(body, i);
      && (r < |body| ==> body[r] == 0x22 && !Escaped(body, start, r))
      && forall k :: i <= k < r ==> body[k] == 0x22 ==> Escaped(body, start, k)
    decreases |body| - i
  {
    if i < |body| && body[i] != QUOTE {
      if body[i] != BACKSLASH {
        EndIsFirstQuote(body, start, i + 1);
      } else if i + 1 < |body| {
        assert Escaped(body, start, i + 1);
        EndIsFirstQuote(body, start, i + 2);
      }
    }
  }

  /** The text from start on is the escaped form of s, its closing quote, and anything. */
  ghost predicate HoldsString(body: seq<byte>, start: nat, s: seq<byte>) {
    start <= |body| && exists tail: seq<byte> :: body[start..] == Escape(s) + ([QUOTE] + tail)
  }

  /** For every string: scanning its escaped form stops exactly at the quote that closes it. */
  lemma ScanStopsAtClosingQuote(body: seq<byte>, start: nat, s: seq<byte>)
    requires HoldsString(body, start, s)
    ensures StringEnd(body, start) == start + |Escape(s)|
    ensures start + |Escape(s)| < |body| && body[start + |Escape(s)|] == QUOTE
  {
    var tail: seq<byte> :| body[start..] == Escape(s) + ([QUOTE] + tail);
    EscapedIsSkipped(s, [QUOTE] + tail);
    StringEndShift(body[..start], body[start..], 0);
    assert body[..start] + body[start..] == body;
    assert body[start..][|Escape(s)|] == QUOTE;
  }

  lemma SliceOfDrop<T>(body: seq<T>, start: nat, n: nat)
    requires start + n <= |body|
    ensures body[start..start + n] == body[start..][..n]
  {
  }

  lemma TakeOfAppend<T>(a: seq<T>, b: seq<T>)
    ensures (a + b)[..|a|] == a
  {
  }

  /** What lies between the quotes is the escaped form, all of it and nothing more. */
  lemma CutIsEscaped(body: seq<byte>, start: nat, s: seq<byte>)
    requires HoldsString(body, start, s)
    ensures body[start..StringEnd(body, start)] == Escape(s)
  {
    hide Escape; hide StringEnd;
    ScanStopsAtClosingQuote(body, start, s);
    var tail: seq<byte> :| body[start..] == Escape(s) + ([QUOTE] + tail);
    SliceOfDrop(body, start, |Escape(s)|);
    TakeOfAppend(Escape(s), [QUOTE] + tail);
  }

  // ---- reading back what was written ----

  /** The bytes the reader gets back: all but the control characters it has no pair for. */
  predicate Plain(ch: byte) {
    ch >= 0x20 || ch == NEWLINE || ch == RETURN || ch == TAB
  }

  predicate AllPlain(s: seq<byte>) {
    forall i :: 0 <= i < |s| ==> Plain(s[i])
  }

  /** What reading the escape of one byte yields. */
  function ReadBack(ch: byte): seq<byte> {
    if Plain(ch) then [ch] else EscapeByte(ch)
  }

  function ReadBackAll(s: seq<byte>): seq<byte>
    decreases |s|
  {
    if s == [] then [] else ReadBackAll(s[..|s| - 1]) + ReadBack(s[|s| - 1])
  }

  lemma UnescapePlain(c: byte, rest: seq<byte>)
    requires c != BACKSLASH
    ensures Unescape([c] + rest) == [c] + Unescape(rest)
  {
    assert ([c] + rest)[1..] == rest;
  }

  lemma UnescapeEscape(c: byte, rest: seq<byte>)
    ensures Unescape([BACKSLASH, c] + rest) == UnescapePair(c) + Unescape(rest)
  {
    assert ([BACKSLASH, c] + rest)[2..] == rest;
  }

  /** The five pairs the reader knows; any other comes back as it stands, and so does a backslash at the end. */
  lemma PairsRead(c: byte, rest: seq<byte>)
    ensures Unescape([0x5C, 0x22] + rest) == [0x22] + Unescape(rest)
    ensures Unescape([0x5C, 0x5C] + rest) == [0x5C] + Unescape(rest)
    ensures Unescape([0x5C, 0x6E] + rest) == [0x0A] + Unescape(rest)
    ensures Unescape([0x5C, 0x72] + rest) == [0x0D] + Unescape(rest)
    ensures Unescape([0x5C, 0x74] + rest) == [0x09] + Unescape(rest)
    ensures c !in [0x22, 0x5C, 0x6E, 0x72, 0x74] ==> Unescape([0x5C, c] + rest) == [0x5C, c] + Unescape(rest)
    ensures Unescape([0x5C]) == [0x5C]
    ensures c != 0x5C ==> Unescape([c] + rest) == [c] + Unescape(rest)
  {
    hide Unescape;
    UnescapeEscape(0x22, rest);
    UnescapeEscape(0x5C, rest);
    UnescapeEscape(0x6E, rest);
    UnescapeEscape(0x72, rest);
    UnescapeEscape(0x74, rest);
    UnescapeEscape(c, rest);
    LoneBackslash();
    if c != BACKSLASH {
      UnescapePlain(c, rest);
    }
  }

  lemma LoneBackslash()
    ensures Unescape([0x5C]) == [0x5C]
  {
    assert [0x5C as byte][1..] == [];
  }

  /** The reader takes the six bytes of a control character one pair and four bytes at a time. */
  lemma UnescapeUnicode(h: byte, l: byte, rest: seq<byte>)
    requires h != BACKSLASH && l != BACKSLASH
    ensures Unescape([BACKSLASH, 0x75, 0x30, 0x30, h, l] + rest) == [BACKSLASH, 0x75, 0x30, 0x30, h, l] + Unescape(rest)
  {
    hide Unescape; hide UnescapePair;
    var t3 := [l] + rest;
    var t2 := [h] + t3;
    var t1 := [0x30] + t2;
    var t0 := [0x30] + t1;
    UnescapePlain(l, rest);
    UnescapePlain(h, t3);
    UnescapePlain(0x30, t2);
    UnescapePlain(0x30, t1);
    UnescapeEscape(0x75, t0);
    UnknownPair();
    assert [BACKSLASH, 0x75, 0x30, 0x30, h, l] + rest == [BACKSLASH, 0x75] + t0;
    var u := Unescape(rest);
    assert [BACKSLASH, 0x75] + ([0x30] + ([0x30] + ([h] + ([l] + u)))) == [BACKSLASH, 0x75, 0x30, 0x30, h, l] + u;
  }

  lemma UnknownPair()
    ensures UnescapePair(0x75) == [BACKSLASH, 0x75]
  {
  }

  lemma DigitsAreDigits(ch: byte)
    requires ch < 0x20
    ensures HexDigit(ch >> 4) != BACKSLASH && HexDigit(ch & 0xF) != BACKSLASH
  {
  }

  lemma UnescapeByte(ch: byte, rest: seq<byte>)
    ensures Unescape(EscapeByte(ch) + rest) == ReadBack(ch) + Unescape(rest)
  {
    hide Unescape; hide HexDigit;
    var e := EscapeByte(ch);
    if |e| == 1 {
      UnescapePlain(ch, rest);
    } else if |e| == 2 {
      UnescapeEscape(e[1], rest);
    } else {
      DigitsAreDigits(ch);
      UnescapeUnicode(HexDigit(ch >> 4), HexDigit(ch & 0xF), rest);
    }
  }

  lemma {:induction false} UnescapeEscaped(s: seq<byte>, rest: seq<byte>)
    ensures Unescape(Escape(s) + rest) == ReadBackAll(s) + Unescape(rest)
    decreases |s|
  {
    hide EscapeByte; hide ReadBack; hide Unescape;
    if s == [] {
      assert Escape(s) + rest == rest;
    } else {
      var front, last := s[..|s| - 1], s[|s| - 1];
      assert Escape(s) + rest == Escape(front) + (EscapeByte(last) + rest);
      UnescapeEscaped(front, EscapeByte(last) + rest);
      UnescapeByte(last, rest);
    }
  }

  lemma PlainSplits(s: seq<byte>)
    requires s != []
    ensures AllPlain(s) <==> AllPlain(s[..|s| - 1]) && Plain(s[|s| - 1])
  {
    forall i | 0 <= i < |s|
      ensures Plain(s[i]) <==> if i < |s| - 1 then Plain(s[..|s| - 1][i]) else Plain(s[|s| - 1])
    {
    }
  }

  lemma {:induction false} ReadBackIsIdentity(s: seq<byte>)
    ensures |ReadBackAll(s)| >= |s|
    ensures if AllPlain(s) then ReadBackAll(s) == s else |ReadBackAll(s)| > |s|
    decreases |s|
  {
    hide ReadBack; hide Plain; hide AllPlain;
    if s == [] {
      NonePlain();
    } else {
      var n := |s| - 1;
      ReadBackIsIdentity(s[..n]);
      assert s == s[..n] + [s[n]];
      PlainSplits(s);
      ReadBackOne(s[n]);
    }
  }

  lemma NonePlain()
    ensures AllPlain([])
  {
  }

  lemma ReadBackOne(ch: byte)
    ensures if Plain(ch) then ReadBack(ch) == [ch] else |ReadBack(ch)| > 1
  {
    hide HexDigit;
  }

  /**
   * Reading undoes writing exactly on the strings without control characters other
   * than newline, return and tab: the others are written as \\u escapes, which the
   * reader does not decode.
   */
  lemma RoundTripIff(s: seq<byte>)
    ensures Unescape(Escape(s)) == s <==> AllPlain(s)
  {
    UnescapeEscaped(s, []);
    assert Escape(s) + [] == Escape(s);
    ReadBackIsIdentity(s);
  }

  /** Cutting a written string out of any body and reading it gives the string, exactly if it is plain. */
  lemma CutRoundTrip(body: seq<byte>, start: nat, s: seq<byte>)
    requires HoldsString(body, start, s)
    ensures Unescape(body[start..StringEnd(body, start)]) == s <==> AllPlain(s)
  {
    CutIsEscaped(body, start, s);
    RoundTripIff(s);
  }

  // ---- what is written is a string of section 7 of RFC 8259 ----

  /** A character that may stand unescaped: no quote, no backslash, no control character. */
  predicate Unescaped(c: byte) {
    c >= 0x20 && c != QUOTE && c != BACKSLASH
  }

  /** What a pair after a backslash stands for, if it is one of the eight. */
  function PairMeaning(c: byte): Option<byte> {
    if c == QUOTE || c == BACKSLASH || c == 0x2F then Some(c)
    else if c == 0x62 then Some(0x08)
    else if c == 0x66 then Some(0x0C)
    else if c == 0x6E then Some(NEWLINE)
    else if c == 0x72 then Some(RETURN)
    else if c == 0x74 then Some(TAB)
    else None
  }

  function HexMeaning(c: byte): Option<byte> {
    if 0x30 <= c <= 0x39 then Some(c - 0x30)
    else if 0x41 <= c <= 0x46 then Some(c - 0x37)
    else if 0x61 <= c <= 0x66 then Some(c - 0x57)
    else None
  }

  /** The character below 128 that four hexadecimal digits stand for; larger ones are not needed here. */
  function UnicodeMeaning(a: byte, b: byte, c: byte, d: byte): Option<byte> {
    var h, l := HexMeaning(c), HexMeaning(d);
    if a == 0x30 && b == 0x30 && h.Some? && l.Some? && h.value < 8 then Some((h.value << 4) | l.value) else None
  }

  /** What the text between the quotes stands for; None when section 7 does not admit it. */
  function Meaning(s: seq<byte>): Option<seq<byte>>
    decreases |s|
  {
    if s == [] then Some([])
    else if Unescaped(s[0]) then Before([s[0]], Meaning(s[1..]))
    else if s[0] != BACKSLASH || |s| < 2 then None
    else if PairMeaning(s[1]).Some? then Before([PairMeaning(s[1]).value], Meaning(s[2..]))
    else if s[1] == 0x75 && |s| >= 6 && UnicodeMeaning(s[2], s[3], s[4], s[5]).Some? then
      Before([UnicodeMeaning(s[2], s[3], s[4], s[5]).value], Meaning(s[6..]))
    else None
  }

  function Before(a: seq<byte>, b: Option<seq<byte>>): Option<seq<byte>> {
    if b.None? then None else Some(a + b.value)
  }

  lemma ControlDigits(ch: byte)
    requires ch < 0x20
    ensures UnicodeMeaning(0x30, 0x30, HexDigit(ch >> 4), HexDigit(ch & 0xF)) == Some(ch)
  {
    var h, l := ch >> 4, ch & 0xF;
    assert h < 2 && l < 16;
    assert (h << 4) | l == ch;
    DigitMeaning(h);
    DigitMeaning(l);
  }

  lemma DigitMeaning(n: byte)
    requires n < 16
    ensures HexMeaning(HexDigit(n)) == Some(n)
  {
  }

  /** One written byte means itself, whatever follows. */
  lemma ByteMeans(ch: byte, rest: seq<byte>)
    ensures Meaning(EscapeByte(ch) + rest) == Before([ch], Meaning(rest))
  {
    hide HexDigit; hide UnicodeMeaning; hide HexMeaning;
    var e := EscapeByte(ch);
    var s := e + rest;
    if |e| == 1 {
      assert s[1..] == rest;
    } else if |e| == 2 {
      assert s[2..] == rest;
    } else {
      ControlDigits(ch);
      assert s[6..] == rest;
    }
  }

  lemma Regroup(a: seq<byte>, b: seq<byte>, c: seq<byte>)
    ensures a + (b + c) == a + b + c
  {
  }

  lemma {:induction false} MeaningOfEscaped(s: seq<byte>, rest: seq<byte>)
    ensures Meaning(Escape(s) + rest) == Before(s, Meaning(rest))
    decreases |s|
  {
    hide Meaning; hide EscapeByte;
    if s == [] {
      assert Escape(s) + rest == rest;
      if Meaning(rest).Some? {
        assert [] + Meaning(rest).value == Meaning(rest).value;
      }
    } else {
      var front, last := s[..|s| - 1], s[|s| - 1];
      Regroup(Escape(front), EscapeByte(last), rest);
      MeaningOfEscaped(front, EscapeByte(last) + rest);
      ByteMeans(last, rest);
      if Meaning(rest).Some? {
        Regroup(front, [last], Meaning(rest).value);
        assert front + [last] == s;
      }
    }
  }

  /** Every string, whatever it holds, is written as a JSON string that stands for it. */
  lemma WrittenMeansItself(s: seq<byte>)
    ensures Meaning(Escape(s)) == Some(s)
  {
    MeaningOfEscaped(s, []);
    assert Escape(s) + [] == Escape(s) && s + [] == s;
  }

  /** So no two strings are written alike, those the reader does not give back included. */
  lemma EscapeInjective(s: seq<byte>, t: seq<byte>)
    requires Escape(s) == Escape(t)
    ensures s == t
  {
    WrittenMeansItself(s);
    WrittenMeansItself(t);
  }
}
