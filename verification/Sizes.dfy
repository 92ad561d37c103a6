/** Which size lines are read, and as which numbers; and what a body that ends early decodes to. */
module Sizes {
  import opened Wrappers
  import opened Sockets
  import opened Chunked
  import opened ChunkedBodies

  // ---- digits ----

  const LOWER: seq<byte> := [0x30, 0x31, 0x32, 0x33, 0x34, 0x35, 0x36, 0x37, 0x38, 0x39,
                             0x61, 0x62, 0x63, 0x64, 0x65, 0x66]
  const UPPER: seq<byte> := [0x30, 0x31, 0x32, 0x33, 0x34, 0x35, 0x36, 0x37, 0x38, 0x39,
                             0x41, 0x42, 0x43, 0x44, 0x45, 0x46]

  /** The sixteen digits in both cases, and no other byte. */
  lemma DigitsByName(b: byte)
    ensures forall k :: 0 <= k < 16 ==> DigitValue(LOWER[k]) == Some(k) && DigitValue(UPPER[k]) == Some(k)
    ensures DigitValue(b).Some? ==> b in LOWER || b in UPPER
  {
    if DigitValue(b).Some? {
      var k := DigitValue(b).value;
      assert b == LOWER[k] || b == UPPER[k] by { DigitIs(b); }
    }
  }

  lemma DigitIs(b: byte)
    requires DigitValue(b).Some?
    ensures DigitValue(b).value < 16
    ensures b == LOWER[DigitValue(b).value] || b == UPPER[DigitValue(b).value]
  {
  }

  /** Digits with underscores between two of them, one at a time. */
  ghost predicate Underscored(t: seq<byte>) {
    && t != [] && t[0] != 0x5F && t[|t| - 1] != 0x5F
    && (forall k :: 0 <= k < |t| ==> t[k] == 0x5F || DigitValue(t[k]).Some?)
    && (forall k :: 0 <= k < |t| - 1 ==> !(t[k] == 0x5F && t[k + 1] == 0x5F))
  }

  /** The number the digits stand for; underscores do not count. */
  function Magnitude(t: seq<byte>): nat {
    if t == [] then 0
    else
      var high, last := Magnitude(t[..|t| - 1]), t[|t| - 1];
      if DigitValue(last).Some? then high * 16 + DigitValue(last).value else high
  }

  lemma {:induction false} DigitsIff(t: seq<byte>)
    ensures Digits(t).Some? <==> Underscored(t)
    ensures Digits(t).Some? ==> Digits(t).value == Magnitude(t)
    decreases |t|
  {
    hide DigitValue;
    assert DigitValue(0x5F).None? by { NotADigit(); }
    var n := |t| - 1;
    if n == 0 {
      assert t[..0] == [];
    } else if n > 0 {
      if t[n - 1] == 0x5F {
        assert t[..n][..n - 1] == t[..n - 1] && t[..n][n - 1] == 0x5F;
        DigitsIff(t[..n - 1]);
      } else {
        DigitsIff(t[..n]);
      }
    }
  }

  lemma NotADigit()
    ensures DigitValue(0x5F).None? && DigitValue(0x2B).None? && DigitValue(0x2D).None?
    ensures DigitValue(0x78).None? && DigitValue(0x58).None? && DigitValue(0x3B).None?
  {
  }

  // ---- numerals ----

  /** An optional sign, an optional 0x that an underscore may follow, and digits. */
  ghost predicate Spells(t: seq<byte>, sign: seq<byte>, prefix: seq<byte>, body: seq<byte>, v: int) {
    && t == sign + prefix + body
    && (sign == [] || sign == [0x2B] || sign == [0x2D])
    && (prefix == [] || prefix == [0x30, 0x78] || prefix == [0x30, 0x58] || prefix == [0x30, 0x78, 0x5F]
        || prefix == [0x30, 0x58, 0x5F])
    && Underscored(body)
    && v == if sign == [0x2D] then 0 - Magnitude(body) else Magnitude(body)
  }

  lemma PrefixDropped(u: seq<byte>, prefix: seq<byte>, body: seq<byte>)
    requires u == prefix + body && Underscored(body)
    requires prefix == [] || prefix == [0x30, 0x78] || prefix == [0x30, 0x58] || prefix == [0x30, 0x78, 0x5F]
      || prefix == [0x30, 0x58, 0x5F]
    ensures DropPrefix(u) == body
  {
    NotADigit();
    if prefix == [] {
      assert u == body;
    } else {
      assert u[|prefix|..] == body && u[|prefix|] == body[0];
    }
  }

  lemma PrefixOf(u: seq<byte>) returns (prefix: seq<byte>)
    ensures u == prefix + DropPrefix(u)
    ensures prefix == [] || prefix == [0x30, 0x78] || prefix == [0x30, 0x58] || prefix == [0x30, 0x78, 0x5F]
      || prefix == [0x30, 0x58, 0x5F]
  {
    prefix := if DropPrefix(u) == u then [] else if DropPrefix(u) == u[2..] then u[..2] else u[..3];
  }

  /** What is read as a number is a numeral, with that value, and every numeral is read. */
  lemma ParsesIff(t: seq<byte>, v: int)
    ensures ParseHex(t) == Some(v) <==> exists sign, prefix, body :: Spells(t, sign, prefix, body, v)
  {
    hide Digits; hide DropPrefix; hide Underscored; hide Magnitude;
    if ParseHex(t) == Some(v) {
      var sign := if t != [] && (t[0] == 0x2B || t[0] == 0x2D) then t[..1] else [];
      var u := t[|sign|..];
      var prefix := PrefixOf(u);
      DigitsIff(DropPrefix(u));
      assert t == sign + prefix + DropPrefix(u);
      assert Spells(t, sign, prefix, DropPrefix(u), v);
    }
    if sign, prefix, body :| Spells(t, sign, prefix, body, v) {
      var u := prefix + body;
      PrefixDropped(u, prefix, body);
      DigitsIff(body);
      SignIs(t, sign, prefix, body);
      assert sign == [] ==> t == u;
      assert sign != [] ==> t[1..] == u;
    }
  }

  /** A numeral begins with a sign only if it has one. */
  lemma SignIs(t: seq<byte>, sign: seq<byte>, prefix: seq<byte>, body: seq<byte>)
    requires t == sign + prefix + body && Underscored(body)
    requires prefix == [] || prefix[0] == 0x30
    requires sign == [] || sign == [0x2B] || sign == [0x2D]
    ensures t != []
    ensures sign == [] ==> t[0] != 0x2B && t[0] != 0x2D
    ensures sign != [] ==> t[0] == sign[0]
  {
    NotADigit();
    if sign == [] {
      assert t[0] == if prefix == [] then body[0] else prefix[0];
    }
  }

  // ---- the field of a size line ----

  ghost predicate AllSpace(s: seq<byte>) {
    forall k :: 0 <= k < |s| ==> s[k] == 0x20 || 0x09 <= s[k] <= 0x0D
  }

  lemma {:induction false} StripLeftShape(s: seq<byte>) returns (a: seq<byte>)
    ensures s == a + StripLeft(s) && AllSpace(a) && (StripLeft(s) != [] ==> !IsSpace(StripLeft(s)[0]))
    decreases |s|
  {
    if s != [] && IsSpace(s[0]) {
      a := StripLeftShape(s[1..]);
      a := [s[0]] + a;
      assert s == [s[0]] + s[1..];
    } else {
      a := [];
      assert [] + s == s;
    }
  }

  lemma {:induction false} StripRightShape(s: seq<byte>) returns (b: seq<byte>)
    ensures s == StripRight(s) + b && AllSpace(b)
    ensures StripRight(s) != [] ==> !IsSpace(StripRight(s)[|StripRight(s)| - 1])
    decreases |s|
  {
    if s != [] && IsSpace(s[|s| - 1]) {
      b := StripRightShape(s[..|s| - 1]);
      b := b + [s[|s| - 1]];
      assert s == s[..|s| - 1] + [s[|s| - 1]];
    } else {
      b := [];
      assert s + [] == s;
    }
  }

  /**
   * The size of a line is the number its first field stands for: what comes before
   * the first semicolon, without the white space around it.
   */
  lemma FieldOf(line: seq<byte>) returns (a: seq<byte>, core: seq<byte>, b: seq<byte>, rest: seq<byte>)
    ensures line == a + core + b + rest && ChunkSize(line) == ParseHex(core)
    ensures AllSpace(a) && AllSpace(b)
    ensures core != [] ==> !IsSpace(core[0]) && !IsSpace(core[|core| - 1])
    ensures 0x3B !in a + core + b && (rest != [] ==> rest[0] == 0x3B)
  {
    hide ParseHex; hide Find; hide StripLeft; hide StripRight;
    var semi := Find(line, [SEMICOLON]);
    var field := if semi.Some? then line[..semi.value] else line;
    rest := line[|field|..];
    FieldEnds(line, field, rest);
    a := StripLeftShape(field);
    b := StripRightShape(StripLeft(field));
    core := Strip(field);
    StillBegins(StripLeft(field), core, b);
    assert a + core + b == a + (core + b) == field;
  }

  lemma FieldEnds(line: seq<byte>, field: seq<byte>, rest: seq<byte>)
    requires var semi := Find(line, [SEMICOLON]); field == if semi.Some? then line[..semi.value] else line
    requires rest == line[|field|..]
    ensures 0x3B !in field && (rest != [] ==> rest[0] == 0x3B)
  {
    forall k | 0 <= k < |field|
      ensures field[k] != 0x3B
    {
      assert line[k..k + 1] == [line[k]];
      assert !StandsAt(line, [SEMICOLON], k);
    }
    if rest != [] {
      assert line[|field|..|field| + 1] == [line[|field|]];
      assert StandsAt(line, [SEMICOLON], |field|);
    }
  }

  lemma StillBegins(s: seq<byte>, core: seq<byte>, b: seq<byte>)
    requires s == core + b && (s != [] ==> !IsSpace(s[0]))
    ensures core != [] ==> !IsSpace(core[0])
  {
    if core != [] {
      assert core[0] == s[0];
    }
  }

  // ---- a body that ends early ----

  /**
   * A body that ends inside a chunk: the data of the chunks before it, and of this one
   * nothing while its size line is not complete, and then whatever there is, which may
   * include the first byte of the line break behind it.
   */
  lemma {:induction false} CutBody(cs: seq<Chunk>, c: Chunk, n: nat, out: seq<byte>)
    requires (forall i :: 0 <= i < |cs| ==> cs[i].WellFormed() && cs[i].data != [])
    requires c.WellFormed() && c.data != [] && n < |Encode(c)|
    ensures Dechunk(EncodeAll(cs) + Encode(c)[..n], out, None)
         == Ok(out + Data(cs) + if n < |c.Line()| + 2 then [] else Encode(c)[|c.Line()| + 2..n])
    decreases |cs|
  {
    hide Dechunk; hide Encode; hide Chunk.WellFormed;
    var p := Encode(c)[..n];
    if cs == [] {
      assert EncodeAll(cs) + p == p;
      CutChunk(c, n, out);
      assert out + [] == out;
    } else {
      Regroup(Encode(cs[0]), EncodeAll(cs[1..]), p);
      DechunkOne(cs[0], EncodeAll(cs[1..]) + p, out, None);
      CutBody(cs[1..], c, n, out + cs[0].data);
      Regroup(out, cs[0].data, Data(cs[1..]));
    }
  }

  lemma CutChunk(c: Chunk, n: nat, out: seq<byte>)
    requires c.WellFormed() && c.data != [] && n < |Encode(c)|
    ensures Dechunk(Encode(c)[..n], out, None)
         == Ok(if n < |c.Line()| + 2 then out else out + Encode(c)[|c.Line()| + 2..n])
  {
    hide Dechunk; hide AfterLine; hide Find;
    var line, p := c.Line(), Encode(c)[..n];
    if n < |line| + 2 {
      NoBreakYet(line, p);
      NoLineLeft(p, out, None);
    } else {
      var tail := Encode(c)[|line| + 2..n];
      assert Encode(c)[..|line| + 2] == line + CRLF;
      assert p == line + CRLF + tail;
      DechunkLine(c, tail, out, None);
      LineCases(Some(|c.data|), tail, out, None);
    }
  }

  /** Before its line break is complete, a size line holds none. */
  lemma NoBreakYet(line: seq<byte>, p: seq<byte>)
    requires Find(line, CRLF).None? && |p| < |line| + 2 && p == (line + CRLF)[..|p|]
    ensures Find(p, CRLF).None?
  {
    var s := line + CRLF + [];
    LineEnds(line, []);
    assert s == line + CRLF;
    if Find(p, CRLF).Some? {
      var k := Find(p, CRLF).value;
      assert p[k..k + 2] == s[k..k + 2];
      assert StandsAt(s, CRLF, k);
    }
  }
}
