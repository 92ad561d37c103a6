/** Whatever an author may write is read as the tree it stands for, and nothing after it is touched. */
module Reading {
  import opened Wrappers
  import opened Markup
  import opened Trees
  import opened Edges
  import opened Sources
  import Scanner

  // ---- what stands where ----

  lemma AtParts(m: string, a: string, b: string, i: nat)
    ensures At(m, a + b, i) <==> At(m, a, i) && At(m, b, i + |a|)
  {
    if i + |a| + |b| <= |m| {
      var s := m[i..i + |a + b|];
      assert s[..|a|] == m[i..i + |a|] && s[|a|..] == m[i + |a|..i + |a| + |b|];
      assert (a + b)[..|a|] == a && (a + b)[|a|..] == b;
      assert s == s[..|a|] + s[|a|..];
    }
  }

  lemma AtChar(m: string, s: string, i: nat, k: nat)
    requires At(m, s, i) && k < |s|
    ensures i + k < |m| && m[i + k] == s[k]
  {
    assert m[i..i + |s|][k] == m[i + k];
  }

  lemma AtSlice(m: string, s: string, i: nat)
    requires At(m, s, i)
    ensures m[i..i + |s|] == s
  {
  }

  lemma AtBound(m: string, s: string, i: nat)
    requires At(m, s, i)
    ensures i + |s| <= |m| && At(m, "", i)
  {
  }

  lemma AtStart(s: string, rest: string)
    ensures At(s + rest, s, 0)
  {
  }

  lemma Grouped(a: string, b: string, c: string, d: string)
    ensures a + (b + c) + d == a + (b + (c + d))
  {
  }

  // ---- names, white space and searching ----

  lemma NameRead(m: string, i: nat, name: string)
    requires At(m, name, i) && NameOk(name) && (i + |name| < |m| ==> EndsName(m[i + |name|]))
    ensures NameEnd(m, i) == i + |name|
  {
    forall k | i <= k < i + |name|
      ensures !EndsName(m[k])
    {
      AtChar(m, name, i, k - i);
    }
  }

  lemma {:induction false} SpaceRead(m: string, i: nat, w: string)
    requires At(m, w, i) && White(w) && (i + |w| < |m| ==> !IsSpace(m[i + |w|]))
    ensures SpaceEnd(m, i) == i + |w|
    decreases |w|
  {
    if w != "" {
      AtChar(m, w, i, 0);
      assert w == [w[0]] + w[1..];
      AtParts(m, [w[0]], w[1..], i);
      SpaceRead(m, i + 1, w[1..]);
    }
  }

  lemma {:induction false} SpaceTwice(m: string, i: nat)
    requires i <= |m|
    ensures SpaceEnd(m, SpaceEnd(m, i)) == SpaceEnd(m, i)
    decreases |m| - i
  {
    if i < |m| && IsSpace(m[i]) {
      SpaceTwice(m, i + 1);
    }
  }

  lemma UntilRead(m: string, c: char, i: nat, s: string)
    requires At(m, s, i) && c !in s && i + |s| < |m| && m[i + |s|] == c
    ensures Until(m, c, i) == i + |s|
  {
    forall k | i <= k < i + |s|
      ensures m[k] != c
    {
      AtChar(m, s, i, k - i);
    }
  }

  lemma {:induction false} FirstAt(s: string, pat: string, i: nat, j: nat)
    requires i <= j && At(s, pat, j) && forall k :: i <= k < j ==> !At(s, pat, k)
    ensures IndexOf(s, pat, i) == Some(j)
    decreases j - i
  {
    if i < j {
      FirstAt(s, pat, i + 1, j);
    }
  }

  lemma {:induction false} NowhereAt(s: string, pat: string, i: nat)
    requires forall k :: i <= k ==> !At(s, pat, k)
    ensures IndexOf(s, pat, i) == None
    decreases |s| - i
  {
    if i < |s| {
      NowhereAt(s, pat, i + 1);
    }
  }

  /** Where a pair of equal characters stands. */
  lemma PairIs(m: string, c: char, k: nat)
    ensures At(m, [c, c], k) <==> k + 2 <= |m| && m[k] == c && m[k + 1] == c
  {
    if k + 2 <= |m| {
      assert m[k..k + 2] == [m[k], m[k + 1]];
    }
  }

  /** Text with no pair of c, and none at its end, puts off the first pair to where the next one stands. */
  lemma PairAfter(m: string, c: char, i: nat, s: string)
    requires At(m, s, i) && NoPair(s, c) && (s != "" ==> s[|s| - 1] != c) && At(m, [c, c], i + |s|)
    ensures IndexOf(m, [c, c], i) == Some(i + |s|)
  {
    forall k | i <= k < i + |s|
      ensures !At(m, [c, c], k)
    {
      PairIs(m, c, k);
      AtChar(m, s, i, k - i);
      if k + 1 < i + |s| {
        AtChar(m, s, i, k + 1 - i);
      }
    }
    FirstAt(m, [c, c], i, i + |s|);
  }

  /** Text with no pair of c that the markup ends with has no pair. */
  lemma PairNowhere(m: string, c: char, i: nat, s: string)
    requires At(m, s, i) && NoPair(s, c) && i + |s| == |m|
    ensures IndexOf(m, [c, c], i) == None
  {
    forall k: nat | i <= k
      ensures !At(m, [c, c], k)
    {
      PairIs(m, c, k);
      if k + 1 < |m| {
        AtChar(m, s, i, k - i);
        AtChar(m, s, i, k + 1 - i);
      }
    }
    NowhereAt(m, [c, c], i);
  }

  // ---- trimming ----

  lemma {:induction false} TrimLeftIs(a: string, s: string, cs: string)
    requires AllIn(a, cs) && (s != "" ==> s[0] !in cs)
    ensures TrimLeft(a + s, cs) == s
    decreases |a|
  {
    if a == "" {
      assert a + s == s;
    } else {
      assert (a + s)[1..] == a[1..] + s;
      TrimLeftIs(a[1..], s, cs);
    }
  }

  lemma {:induction false} TrimRightIs(s: string, b: string, cs: string)
    requires AllIn(b, cs) && (s != "" ==> s[|s| - 1] !in cs)
    ensures TrimRight(s + b, cs) == s
    decreases |b|
  {
    var t := s + b;
    if b == "" {
      assert t == s;
    } else {
      assert t[..|t| - 1] == s + b[..|b| - 1];
      TrimRightIs(s, b[..|b| - 1], cs);
    }
  }

  lemma TrimIs(a: string, s: string, b: string, cs: string)
    requires AllIn(a, cs) && AllIn(b, cs)
    requires Trimmed(s, cs)
    ensures Trim(a + s + b, cs) == s
  {
    if s == "" {
      var ab := a + b;
      assert a + s + b == ab && ab + "" == ab && "" + "" == "";
      TrimLeftIs(ab, "", cs);
      TrimRightIs("", "", cs);
    } else {
      assert a + s + b == a + (s + b);
      TrimLeftIs(a, s + b, cs);
      TrimRightIs(s, b, cs);
    }
  }

  // ---- placeholders ----

  lemma SlotRead(m: string, i: nat, s: Slot)
    requires SlotOk(s) && At(m, SlotText(s), i)
    ensures ReadPlaceholder(m, i) == Some((SlotPart(s), i + |SlotText(s)|))
  {
    hide ReadIdent; hide Trim; hide SlotPart;
    var c := Inside(s);
    AtParts(m, "{{" + c, "}}", i);
    AtParts(m, "{{", c, i);
    assert "}}" == ['}', '}'];
    PairAfter(m, '}', i + 2, c);
    AtSlice(m, c, i + 2);
    TrimIs(s.before, Core(s), s.after, " \t\r\n");
    CoreRead(s);
  }

  lemma CoreRead(s: Slot)
    requires SlotOk(s)
    ensures ReadIdent(Core(s)) == SlotPart(s)
  {
    hide ReadIdent; hide Until; hide Trim;
    if s.typing.None? {
      assert s.name + "" == s.name;
      UntypedCore(s.name);
    } else {
      TypedCore(s.name, s.typing.value);
      TypedPart(s.before, s.name, s.typing.value, s.after);
    }
  }

  lemma UntypedCore(core: string)
    requires ':' !in core
    ensures ReadIdent(core) == Ident(core, "string", false)
  {
    hide Trim;
  }

  lemma TypedPart(before: string, name: string, t: Typing, after: string)
    ensures SlotPart(Slot(before, name, Some(t), after))
         == if t.code == "h" then Ident(name, "string", true) else Ident(name, MapType(t.code), false)
  {
  }

  lemma TypedCore(name: string, t: Typing)
    requires ':' !in name && Trimmed(name, " \t") && Trimmed(t.code, " \t")
    requires AllIn(t.left, " \t") && AllIn(t.right, " \t")
    ensures var ph := name + (t.left + (":" + (t.right + t.code)));
      ReadIdent(ph) == if t.code == "h" then Ident(name, "string", true) else Ident(name, MapType(t.code), false)
  {
    hide Trim; hide MapType;
    var raw, rest := name + t.left, t.right + t.code;
    var c := raw + (":" + rest);
    assert name + (t.left + (":" + rest)) == c;
    ColonAt(raw, rest);
    TrimIs("", name, t.left, " \t");
    TrimIs(t.right, t.code, "", " \t");
    assert "" + name + t.left == raw && t.right + t.code + "" == rest;
  }

  lemma ColonAt(raw: string, rest: string)
    requires ':' !in raw
    ensures var c := raw + (":" + rest); Until(c, ':', 0) == |raw| && c[..|raw|] == raw && c[|raw| + 1..] == rest
  {
    var c := raw + (":" + rest);
    AtStart(raw, ":" + rest);
    assert c[|raw|] == ':';
    UntilRead(c, ':', 0, raw);
  }

  lemma HoleBegins(s: Slot)
    ensures |SlotText(s)| >= 4 && SlotText(s)[0] == '{' && SlotText(s)[1] == '{'
    ensures SlotText(s)[|SlotText(s)| - 1] == '}'
  {
  }

  lemma BracesStand(m: string, i: nat, s: Slot)
    requires At(m, SlotText(s), i)
    ensures At(m, ['{', '{'], i)
  {
    hide SlotText;
    HoleBegins(s);
    AtChar(m, SlotText(s), i, 0);
    AtChar(m, SlotText(s), i, 1);
    PairIs(m, '{', i);
  }

  // ---- runs ----

  lemma FirstBit(bits: seq<Bit>)
    requires bits != []
    ensures BitsText(bits) == BitText(bits[0]) + BitsText(bits[1..])
    ensures BitsParts(bits) == [BitPart(bits[0])] + BitsParts(bits[1..])
  {
    hide BitText; hide BitPart;
  }

  lemma BitsTail(bits: seq<Bit>)
    requires BitsOk(bits) && bits != []
    ensures BitsOk(bits[1..]) && BitOk(bits[0])
  {
    hide BitOk; hide OpensNone;
    var rest := bits[1..];
    assert forall k :: 0 <= k < |rest| ==> rest[k] == bits[k + 1];
  }

  lemma SuffixAt(run: string, k: nat, a: string, b: string)
    requires k <= |run| && run[k..] == a + b
    ensures At(run, a, k) && k + |a| <= |run| && run[k + |a|..] == b
  {
    assert run[k..k + |a|] == run[k..][..|a|] == a;
    assert run[k + |a|..] == run[k..][|a|..] == b;
  }

  /** A run is split into the parts it was written with. */
  lemma {:induction false} BitsRead(run: string, k: nat, bits: seq<Bit>)
    requires BitsOk(bits) && k <= |run| && run[k..] == BitsText(bits)
    ensures SplitParts(run, k) == Some(BitsParts(bits))
    decreases |bits|, 1
  {
    hide ReadPlaceholder; hide BitText; hide BitPart; hide BitOk;
    if bits == [] {
      assert k == |run|;
      NowherePast(run, k);
    } else {
      BitsTail(bits);
      FirstBit(bits);
      if bits[0].Hole? {
        HoleRead(run, k, bits);
      } else if |bits| == 1 {
        LastCharsRead(run, k, bits);
      } else {
        CharsRead(run, k, bits);
      }
    }
  }

  lemma NowherePast(run: string, k: nat)
    requires k == |run|
    ensures IndexOf(run, "{{", k) == None
  {
  }

  lemma HoleRead(run: string, k: nat, bits: seq<Bit>)
    requires BitsOk(bits) && k <= |run| && run[k..] == BitsText(bits)
    requires bits != [] && bits[0].Hole? && BitsOk(bits[1..])
    ensures SplitParts(run, k) == Some(BitsParts(bits))
    decreases |bits|, 0
  {
    hide ReadPlaceholder; hide SlotText; hide SlotPart; hide SlotOk; hide SplitParts; hide IndexOf; hide BitsText;
    hide At;
    hide BitsParts; hide OpensNone;
    var s, rest := bits[0].slot, bits[1..];
    FirstBit(bits);
    SuffixAt(run, k, SlotText(s), BitsText(rest));
    SlotRead(run, k, s);
    BracesStand(run, k, s);
    FirstAt(run, ['{', '{'], k, k);
    BitsRead(run, k + |SlotText(s)|, rest);
    Scanner.SplitRound(run, k, k);
    assert [] + [SlotPart(s)] + BitsParts(rest) == BitsParts(bits);
  }

  lemma LastCharsRead(run: string, k: nat, bits: seq<Bit>)
    requires BitsOk(bits) && k <= |run| && run[k..] == BitsText(bits)
    requires |bits| == 1 && bits[0].Chars?
    ensures SplitParts(run, k) == Some(BitsParts(bits))
  {
    var text := bits[0].text;
    assert BitOk(bits[0]) && BitsText(bits[1..]) == "";
    assert text + "" == text;
    SuffixAt(run, k, text, "");
    PairNowhere(run, '{', k, text);
    assert BitsParts(bits) == [Lit(run[k..])];
  }

  lemma CharsRead(run: string, k: nat, bits: seq<Bit>)
    requires BitsOk(bits) && k <= |run| && run[k..] == BitsText(bits)
    requires |bits| > 1 && bits[0].Chars? && BitsOk(bits[1..])
    ensures SplitParts(run, k) == Some(BitsParts(bits))
    decreases |bits|, 0
  {
    hide ReadPlaceholder; hide SlotText; hide SlotPart; hide SlotOk; hide SplitParts; hide IndexOf; hide BitsText;
    hide At;
    hide BitsParts; hide BitsOk;
    CharsFirst(bits);
    var text, s, rest := bits[0].text, bits[1].slot, bits[1..][1..];
    FirstBit(bits);
    FirstBit(bits[1..]);
    BitsTail(bits[1..]);
    SuffixAt(run, k, text, BitsText(bits[1..]));
    SuffixAt(run, k + |text|, SlotText(s), BitsText(rest));
    SlotRead(run, k + |text|, s);
    BracesStand(run, k + |text|, s);
    PairAfter(run, '{', k, text);
    AtSlice(run, text, k);
    BitsRead(run, k + |text| + |SlotText(s)|, rest);
    Scanner.SplitRound(run, k, k + |text|);
    assert [Lit(text)] + [SlotPart(s)] + BitsParts(rest) == [Lit(text)] + ([SlotPart(s)] + BitsParts(rest));
  }

  lemma CharsFirst(bits: seq<Bit>)
    requires BitsOk(bits) && |bits| > 1 && bits[0].Chars?
    ensures bits[1].Hole? && SlotOk(bits[1].slot) && bits[1..][0] == bits[1]
    ensures var text := bits[0].text; text != "" && NoPair(text, '{') && text[|text| - 1] != '{'
  {
    hide SlotOk;
    assert BitOk(bits[0]) && BitOk(bits[1]);
  }

  /** A run with a placeholder is seen to have one, and a run without is not. */
  lemma HolesSeen(bits: seq<Bit>)
    requires BitsOk(bits)
    ensures SplitParts(BitsText(bits), 0) == Some(BitsParts(bits))
    ensures HasPlaceholder(BitsText(bits)) <==> HasHole(bits)
    ensures BitsText(bits) == "" <==> bits == []
  {
    hide BitsText; hide SplitParts; hide IndexOf; hide BitsOk;
    var run := BitsText(bits);
    assert run[0..] == run;
    BitsRead(run, 0, bits);
    NoBitsNoText(bits);
    if !HasPlaceholder(run) {
      Scanner.SplitEnd(run, 0);
      assert forall k :: 0 <= k < |bits| ==> BitPart(bits[k]) == BitsParts(bits)[k];
    }
    if !HasHole(bits) {
      NoHoleSeen(bits);
    }
  }

  lemma NoHoleSeen(bits: seq<Bit>)
    requires BitsOk(bits) && !HasHole(bits)
    ensures !HasPlaceholder(BitsText(bits))
  {
    hide BitsText; hide BitsOk; hide HasHole;
    OnlyChars(bits);
    assert "{{" == ['{', '{'];
    PairNowhere(BitsText(bits), '{', 0, BitsText(bits));
  }

  lemma TwoHaveHole(bits: seq<Bit>)
    requires BitsOk(bits) && |bits| > 1
    ensures HasHole(bits)
  {
    assert bits[0].Chars? ==> bits[1].Hole?;
    assert bits[if bits[0].Hole? then 0 else 1].Hole?;
  }

  lemma NoBitsNoText(bits: seq<Bit>)
    requires BitsOk(bits)
    ensures BitsText(bits) == "" <==> bits == []
  {
    if bits != [] {
      assert BitOk(bits[0]);
    }
  }

  /** Without placeholders there is one stretch of characters at most. */
  lemma OnlyChars(bits: seq<Bit>)
    requires BitsOk(bits) && !HasHole(bits)
    ensures |bits| <= 1 && NoPair(BitsText(bits), '{') && At(BitsText(bits), BitsText(bits), 0)
  {
    if |bits| > 1 {
      TwoHaveHole(bits);
    } else if |bits| == 1 {
      assert BitOk(bits[0]) && bits[0].Chars?;
      assert bits[0].text + "" == bits[0].text;
    }
  }

  // ---- attributes ----

  lemma QuotedStands(m: string, v: nat, value: string)
    requires '"' !in value && At(m, QUOTE + value + QUOTE, v)
    ensures v + |value| + 1 < |m| && m[v] == '"' && Until(m, '"', v + 1) == v + 1 + |value|
    ensures m[v + 1..v + 1 + |value|] == value
  {
    AtParts(m, QUOTE + value, QUOTE, v);
    AtParts(m, QUOTE, value, v);
    AtChar(m, QUOTE, v, 0);
    AtChar(m, QUOTE, v + 1 + |value|, 0);
    UntilRead(m, '"', v + 1, value);
    AtSlice(m, value, v + 1);
  }

  lemma ValueRead(m: string, v: nat, a: SAttr)
    requires SAttrOk(a) && !a.SBare? && At(m, ValueText(a), v)
    ensures ReadValue(m, a.name, v) == Some((AttrOf(a), v + |ValueText(a)|))
    ensures v < |m| && !IsSpace(m[v])
  {
    hide BitsText; hide SlotText; hide BitsOk; hide SlotOk; hide SplitParts; hide HasPlaceholder; hide ReadPlaceholder;
    hide SlotPart; hide HasHole;
    match a
    case SQuoted(_, name, _, _, bits) =>
      QuotedStands(m, v, BitsText(bits));
      HolesSeen(bits);
    case SBraced(_, name, _, _, slot) =>
      SlotRead(m, v, slot);
      BracesStand(m, v, slot);
      assert "{{" == ['{', '{'];
      PairIs(m, '{', v);
  }

  /** One attribute is read, up to the white space behind it. */
  lemma AttrRead(m: string, i: nat, a: SAttr)
    requires SAttrOk(a) && At(m, AttrText(a), i)
    requires var end := i + |AttrText(a)|;
      end < |m| && (a.SBare? ==> EndsName(m[end]) && SpaceEnd(m, end) < |m| && m[SpaceEnd(m, end)] != '=')
    ensures m[i] != '>' && m[i] != '/'
    ensures ReadAttr(m, i).Some? && ReadAttr(m, i).value.0 == AttrOf(a)
    ensures SpaceEnd(m, ReadAttr(m, i).value.1) == SpaceEnd(m, i + |AttrText(a)|)
  {
    hide ReadValue; hide ValueText; hide BitsOk; hide SlotOk; hide BitsText; hide SpaceEnd; hide NameEnd; hide White;
    hide At; hide ReadAttr; hide AttrOf;
    if a.SBare? {
      BareRead(m, i, a.name);
      BareIs(a);
    } else {
      ValuedRead(m, i, a);
    }
  }

  lemma BareIs(a: SAttr)
    requires a.SBare?
    ensures AttrOf(a) == Bare(a.name)
  {
  }

  lemma BareRead(m: string, i: nat, name: string)
    requires NameOk(name) && At(m, name, i)
    requires var end := i + |name|;
      end < |m| && EndsName(m[end]) && SpaceEnd(m, end) < |m| && m[SpaceEnd(m, end)] != '='
    ensures m[i] != '>' && m[i] != '/'
    ensures ReadAttr(m, i) == Some((Bare(name), SpaceEnd(m, i + |name|)))
    ensures SpaceEnd(m, SpaceEnd(m, i + |name|)) == SpaceEnd(m, i + |name|)
  {
    hide ReadValue; hide SpaceEnd; hide NameEnd; hide At;
    AtChar(m, name, i, 0);
    NameRead(m, i, name);
    AtSlice(m, name, i);
    SpaceTwice(m, i + |name|);
  }

  lemma ValuedRead(m: string, i: nat, a: SAttr)
    requires SAttrOk(a) && !a.SBare? && At(m, AttrText(a), i)
    ensures i < |m| && m[i] != '>' && m[i] != '/'
    ensures ReadAttr(m, i) == Some((AttrOf(a), i + |AttrText(a)|))
  {
    hide ReadValue; hide ValueText; hide At; hide SpaceEnd; hide NameEnd; hide BitsOk; hide SlotOk; hide BitsText;
    hide AttrOf; hide White; hide EndsName; hide IsSpace; hide NameOk; hide ReadAttr; hide AttrText;
    ValuedSpells(a);
    var n, v := i + |a.name|, ValueText(a);
    ValueStands(m, i, a.name, a.left, a.right, v);
    ValueRead(m, n + |a.left| + 1 + |a.right|, a);
    SpaceRead(m, n + |a.left| + 1, a.right);
    AttrAt(m, i, a.name, n + |a.left|);
  }

  lemma ValuedSpells(a: SAttr)
    requires SAttrOk(a) && !a.SBare?
    ensures AttrText(a) == a.name + (a.left + ("=" + (a.right + ValueText(a))))
    ensures |AttrText(a)| == |a.name| + |a.left| + 1 + |a.right| + |ValueText(a)| && NameOk(a.name) && a.name != ""
    ensures White(a.left) && White(a.right)
  {
    hide ValueText; hide White; hide BitsOk; hide BitsText; hide SlotOk;
  }

  /** A name, an equals sign with white space around it, and where the value stands. */
  lemma ValueStands(m: string, i: nat, name: string, left: string, right: string, v: string)
    requires NameOk(name) && White(left) && At(m, name + (left + ("=" + (right + v))), i)
    ensures var n := i + |name|; var e := n + |left|;
      && i < |m| && !EndsName(m[i]) && NameEnd(m, i) == n && m[i..n] == name && SpaceEnd(m, n) == e
      && e < |m| && m[e] == '=' && At(m, right, e + 1) && At(m, v, e + 1 + |right|)
  {
    hide At; hide SpaceEnd; hide NameEnd; hide White;
    var n := i + |name|;
    AtParts(m, name, left + ("=" + (right + v)), i);
    PadThen(m, n, left, "=" + (right + v));
    AtParts(m, "=", right + v, n + |left|);
    AtParts(m, right, v, n + |left| + 1);
    AtChar(m, name, i, 0);
    NameRead(m, i, name);
    AtSlice(m, name, i);
  }

  /** An attribute whose name and equals sign were found is what its value is read as. */
  lemma AttrAt(m: string, i: nat, name: string, e: nat)
    requires i < |m| && !EndsName(m[i]) && i + |name| <= e < |m|
    requires NameEnd(m, i) == i + |name| && m[i..i + |name|] == name && name != ""
    requires SpaceEnd(m, i + |name|) == e && m[e] == '='
    ensures m[i] != '>' && m[i] != '/' && ReadAttr(m, i) == ReadValue(m, name, SpaceEnd(m, e + 1))
  {
    hide ReadValue; hide SpaceEnd; hide NameEnd;
  }

  /** White space that may be empty, and then something that is none. */
  lemma PadThen(m: string, i: nat, pad: string, s: string)
    requires White(pad) && At(m, pad + s, i) && s != "" && !IsSpace(s[0]) && EndsName(s[0])
    ensures At(m, s, i + |pad|) && SpaceEnd(m, i) == i + |pad| < |m| && m[i + |pad|] == s[0]
    ensures i < |m| && EndsName(m[i])
  {
    AtParts(m, pad, s, i);
    AtChar(m, s, i + |pad|, 0);
    SpaceRead(m, i, pad);
    if pad != "" {
      AtChar(m, pad, i, 0);
    }
  }

  lemma AttrsSplit(m: string, i: nat, attrs: seq<SAttr>, pad: string)
    requires SAttrsOk(attrs) && attrs != [] && At(m, AttrsText(attrs) + pad, i)
    ensures var j := i + |attrs[0].gap|; var k := j + |AttrText(attrs[0])|;
      && At(m, attrs[0].gap, i) && At(m, AttrText(attrs[0]), j) && At(m, AttrsText(attrs[1..]) + pad, k)
      && k + |AttrsText(attrs[1..]) + pad| == i + |AttrsText(attrs) + pad|
    ensures SAttrOk(attrs[0]) && SAttrsOk(attrs[1..])
    ensures attrs[0].SBare? && |attrs| > 1 ==> attrs[1..][0].gap != ""
  {
    hide AttrText; hide At; hide SAttrOk; hide SAttrsOk; hide AttrsText;
    AttrsTail(attrs);
    var g, a, rest := attrs[0].gap, AttrText(attrs[0]), AttrsText(attrs[1..]);
    Grouped(g, a, rest, pad);
    AtParts(m, g, a + (rest + pad), i);
    AtParts(m, a, rest + pad, i + |g|);
  }

  lemma AttrsTail(attrs: seq<SAttr>)
    requires SAttrsOk(attrs) && attrs != []
    ensures SAttrOk(attrs[0]) && SAttrsOk(attrs[1..])
    ensures attrs[0].SBare? && |attrs| > 1 ==> attrs[1..][0].gap != ""
    ensures AttrsText(attrs) == attrs[0].gap + (AttrText(attrs[0]) + AttrsText(attrs[1..]))
  {
    hide SAttrOk; hide AttrText;
  }

  lemma NameBegins(a: SAttr)
    requires SAttrOk(a)
    ensures AttrText(a) != "" && !EndsName(AttrText(a)[0]) && White(a.gap)
  {
    hide ValueText; hide BitsOk; hide SlotOk; hide BitsText;
    assert a.name[0] == AttrText(a)[0];
  }

  /** Behind a name comes white space or the end of the tag, and no equals sign. */
  lemma AfterName(m: string, i: nat, attrs: seq<SAttr>, pad: string)
    requires SAttrsOk(attrs) && White(pad) && At(m, AttrsText(attrs) + pad, i)
    requires var end := i + |AttrsText(attrs) + pad|; end < |m| && (m[end] == '>' || m[end] == '/')
    ensures i < |m| && SpaceEnd(m, i) < |m| && m[SpaceEnd(m, i)] != '='
    ensures (attrs != [] ==> attrs[0].gap != "") ==> EndsName(m[i])
    ensures attrs != [] ==> SpaceEnd(m, i) == i + |attrs[0].gap|
    ensures attrs == [] ==> SpaceEnd(m, i) == i + |pad|
  {
    hide AttrText; hide SAttrOk; hide SAttrsOk;
    if attrs == [] {
      assert "" + pad == pad;
      SpaceRead(m, i, pad);
      if pad != "" {
        AtChar(m, pad, i, 0);
      }
    } else {
      AttrsSplit(m, i, attrs, pad);
      NameBegins(attrs[0]);
      AtChar(m, AttrText(attrs[0]), i + |attrs[0].gap|, 0);
      SpaceRead(m, i, attrs[0].gap);
      if attrs[0].gap != "" {
        AtChar(m, attrs[0].gap, i, 0);
      }
    }
  }

  lemma AttrsFrom(m: string, i: nat, j: nat)
    requires i <= |m| && j <= |m| && SpaceEnd(m, i) == SpaceEnd(m, j)
    ensures ReadAttrs(m, i) == ReadAttrs(m, j)
  {
    hide ReadAttr;
  }

  /** The attributes of a tag are read in order, up to its end. */
  lemma {:induction false} AttrsRead(m: string, i: nat, attrs: seq<SAttr>, pad: string)
    requires SAttrsOk(attrs) && White(pad) && At(m, AttrsText(attrs) + pad, i)
    requires var end := i + |AttrsText(attrs) + pad|; end < |m| && (m[end] == '>' || m[end] == '/')
    ensures ReadAttrs(m, i) == Some((AttrsOf(attrs), i + |AttrsText(attrs) + pad|))
    decreases |attrs|
  {
    hide AttrText; hide SAttrOk; hide ReadAttr; hide At; hide SpaceEnd; hide AttrsText; hide SAttrsOk; hide AttrOf;
    hide White;
    AfterName(m, i, attrs, pad);
    if attrs == [] {
      NoAttrs(pad);
    } else {
      AttrsSplit(m, i, attrs, pad);
      var j := i + |attrs[0].gap|;
      var k := j + |AttrText(attrs[0])|;
      AfterName(m, k, attrs[1..], pad);
      AttrRead(m, j, attrs[0]);
      AttrsRead(m, k, attrs[1..], pad);
      AttrsFrom(m, ReadAttr(m, j).value.1, k);
      assert [AttrOf(attrs[0])] + AttrsOf(attrs[1..]) == AttrsOf(attrs);
    }
  }

  lemma NoAttrs(pad: string)
    ensures AttrsText([]) + pad == pad
  {
  }

  // ---- elements ----

  /** A run is read without the white space that formats it. */
  lemma RunRead(r: SRun)
    requires RunOk(r)
    ensures ReadRun(RunText(r)) == Some(RunOf(r)) && '<' !in RunText(r)
  {
    hide TrimEdges; hide BitsText; hide BitsOk; hide HasPlaceholder; hide SplitParts; hide HasHole; hide LeadKept;
    hide TailKept;
    HolesSeen(r.bits);
    RunTrims(r.lead, BitsText(r.bits), r.trail);
    SpaceOpensNoTag(r.lead);
    SpaceOpensNoTag(r.trail);
  }

  lemma SpaceOpensNoTag(s: string)
    requires White(s)
    ensures '<' !in s
  {
    assert !IsSpace('<');
  }

  lemma ElemSplit(m: string, i: nat, e: SElem)
    requires At(m, ElemText(e), i)
    ensures var n := i + 1 + |e.tag|; var j := n + |AttrsText(e.attrs) + e.pad|;
      && At(m, e.tag, i + 1) && At(m, AttrsText(e.attrs) + e.pad, n) && At(m, EndText(e.tag, e.ending), j)
      && j + |EndText(e.tag, e.ending)| == i + |ElemText(e)| <= |m|
      && m[i] == '<' && j < |m| && (m[j] == '>' || m[j] == '/')
  {
    hide AttrsText; hide NodesText; hide CloseText; hide At;
    var a, b := AttrsText(e.attrs) + e.pad, EndText(e.tag, e.ending);
    AtBound(m, ElemText(e), i);
    AtParts(m, "<", e.tag + (a + b), i);
    AtParts(m, e.tag, a + b, i + 1);
    AtParts(m, a, b, i + 1 + |e.tag|);
    AtChar(m, "<", i, 0);
    AtChar(m, b, i + 1 + |e.tag| + |a|, 0);
  }

  /** The tag of an element up to its end, and where the end stands. */
  lemma TagRead(m: string, i: nat, tag: string, attrs: seq<SAttr>, pad: string)
    requires NameOk(tag) && SAttrsOk(attrs) && (attrs != [] ==> attrs[0].gap != "") && White(pad)
    requires At(m, tag, i) && At(m, AttrsText(attrs) + pad, i + |tag|)
    requires var j := i + |tag| + |AttrsText(attrs) + pad|; j < |m| && (m[j] == '>' || m[j] == '/')
    ensures var n := i + |tag|;
      && n <= |m| && NameEnd(m, i) == n && m[i..n] == tag
      && ReadAttrs(m, n) == Some((AttrsOf(attrs), n + |AttrsText(attrs) + pad|))
  {
    hide AttrsText; hide SAttrsOk; hide ReadAttrs; hide White;
    AfterName(m, i + |tag|, attrs, pad);
    NameRead(m, i, tag);
    AtSlice(m, tag, i);
    AttrsRead(m, i + |tag|, attrs, pad);
  }

  lemma VoidTags(tag: string)
    ensures tag in VOID_TAGS <==> VoidName(tag)
  {
  }

  /** Whatever an author may write for an element is read as its tree, and nothing after it is touched. */
  lemma {:induction false} ElemRead(m: string, i: nat, e: SElem)
    requires SElemOk(e) && At(m, ElemText(e), i)
    ensures i < |m| && ReadElem(m, i) == Some((ElemOf(e), i + |ElemText(e)|))
    decreases e, 1
  {
    hide AttrsText; hide ElemText; hide SAttrsOk; hide ReadAttrs; hide ReadNodes; hide SNodesOk; hide At; hide White;
    hide NodesText; hide CloseText; hide NameEnd; hide Separate; hide VoidName; hide NodesOf; hide AnyHole;
    hide AttrsOf;
    hide NameOk;
    ElemSplit(m, i, e);
    TagRead(m, i + 1, e.tag, e.attrs, e.pad);
    VoidTags(e.tag);
    NameNotEmpty(e.tag);
    var j := i + 1 + |e.tag| + |AttrsText(e.attrs) + e.pad|;
    AtChar(m, EndText(e.tag, e.ending), j, 0);
    match e.ending
    case Slash => AtChar(m, EndText(e.tag, e.ending), j, 1);
    case Open =>
    case Content(nodes, before, after) =>
      AtParts(m, ">", NodesText(nodes) + CloseText(e.tag, before, after), j);
      NodesRead(m, j + 1, nodes, e.tag, before, after);
      SeparateIs(nodes);
  }

  lemma NameNotEmpty(tag: string)
    requires NameOk(tag)
    ensures tag != ""
  {
  }

  lemma {:induction false} SeparateIs(ns: SNodes)
    ensures HasDyn(NodesOf(ns)) <==> AnyHole(ns)
    ensures HasChild(NodesOf(ns)) <==> ns.More?
    ensures Separate(NodesOf(ns)) <==> !(AnyHole(ns) && ns.More?)
    decreases ns
  {
    hide HasHole;
    RunHasHole(ns.run);
    if ns.More? {
      SeparateIs(ns.rest);
    }
  }

  lemma RunHasHole(r: SRun)
    ensures HasHole(r.bits) <==> RunOf(r).Cons? && RunOf(r).head.Dyn?
    ensures RunOf(r).Cons? ==> RunOf(r).tail.Nil? && !RunOf(r).head.Child?
  {
  }

  /** The content of an element and its closing tag. */
  lemma {:induction false} NodesRead(m: string, i: nat, ns: SNodes, tag: string, before: string, after: string)
    requires SNodesOk(ns) && NameOk(tag) && AllIn(before, " \t\r\n") && AllIn(after, " \t\r\n")
    requires At(m, NodesText(ns) + CloseText(tag, before, after), i)
    ensures ReadNodes(m, i, tag) == Some((NodesOf(ns), i + |NodesText(ns) + CloseText(tag, before, after)|))
    decreases ns, 2
  {
    hide ElemText; hide CloseText; hide At; hide SElemOk; hide ReadRun; hide ReadElem; hide Trim; hide NodesText;
    hide NameOk; hide ReadNodes; hide Until; hide RunText; hide RunOk; hide AllIn; hide RunOf; hide ElemOf;
    var close, run := CloseText(tag, before, after), RunText(ns.run);
    var lt := i + |run|;
    RunRead(ns.run);
    RunHasHole(ns.run);
    match ns {
      case Last(_) =>
        LastSplits(m, i, ns.run, close);
        CloseRead(m, lt, tag, before, after);
        RunStands(m, i, run);
        AtClose(m, i, lt, tag);
      case More(_, e, rest) =>
        MoreSplits(m, i, ns.run, e, rest, close);
        ChildBegins(m, lt, e);
        RunStands(m, i, run);
        ElemRead(m, lt, e);
        var next := lt + |ElemText(e)|;
        NodesRead(m, next, rest, tag, before, after);
        AtChild(m, i, lt, tag, ElemOf(e), next);
    }
  }

  lemma LastSplits(m: string, i: nat, run: SRun, close: string)
    requires At(m, NodesText(Last(run)) + close, i)
    ensures At(m, RunText(run), i) && At(m, close, i + |RunText(run)|)
    ensures NodesText(Last(run)) == RunText(run)
  {
    hide At; hide RunText;
    AtParts(m, RunText(run), close, i);
  }

  lemma MoreSplits(m: string, i: nat, run: SRun, e: SElem, rest: SNodes, close: string)
    requires At(m, NodesText(More(run, e, rest)) + close, i)
    ensures var lt := i + |RunText(run)|; var next := lt + |ElemText(e)|;
      && At(m, RunText(run), i) && At(m, ElemText(e), lt) && At(m, NodesText(rest) + close, next)
      && next + |NodesText(rest) + close| == i + |NodesText(More(run, e, rest)) + close|
  {
    hide At; hide RunText; hide ElemText;
    var a, b, c := RunText(run), ElemText(e), NodesText(rest);
    Grouped(a, b, c, close);
    AtParts(m, a, b + (c + close), i);
    AtParts(m, b, c + close, i + |a|);
  }

  lemma RunStands(m: string, i: nat, run: string)
    requires At(m, run, i) && '<' !in run && i + |run| < |m| && m[i + |run|] == '<'
    ensures i <= |m| && Until(m, '<', i) == i + |run| && m[i..i + |run|] == run
  {
    UntilRead(m, '<', i, run);
    AtSlice(m, run, i);
  }

  /** What is read where a closing tag stands behind the run, and where a child does. */
  lemma AtClose(m: string, i: nat, lt: nat, tag: string)
    requires i <= |m| && lt == Until(m, '<', i) && lt + 2 < |m| && m[lt + 1] == '/'
    requires var gt := Until(m, '>', lt + 2); gt < |m| && Trim(m[lt + 2..gt], " \t\r\n") == tag
    ensures ReadRun(m[i..lt]).Some? ==>
      ReadNodes(m, i, tag) == Some((ReadRun(m[i..lt]).value, Until(m, '>', lt + 2) + 1))
  {
    hide ReadRun; hide Trim; hide ReadElem;
  }

  lemma AtChild(m: string, i: nat, lt: nat, tag: string, e: Elem, next: nat)
    requires i <= |m| && lt == Until(m, '<', i) && lt + 1 < |m| && m[lt + 1] != '/' && !IsUpper(m[lt + 1])
    requires ReadElem(m, lt) == Some((e, next))
    ensures ReadRun(m[i..lt]).Some? && ReadNodes(m, next, tag).Some? ==>
      var rest := ReadNodes(m, next, tag).value;
      ReadNodes(m, i, tag) == Some((Prepend(ReadRun(m[i..lt]).value, Cons(Child(e), rest.0)), rest.1))
  {
    hide ReadRun; hide Trim; hide ReadElem;
  }

  lemma ChildBegins(m: string, lt: nat, e: SElem)
    requires SElemOk(e) && At(m, ElemText(e), lt)
    ensures lt + 1 < |m| && m[lt] == '<' && m[lt + 1] == e.tag[0] && m[lt + 1] != '/'
  {
    hide At; hide EndText; hide AttrsText; hide SAttrsOk; hide EndOk;
    var s := ElemText(e);
    assert s[0] == '<' && s[1] == e.tag[0];
    AtChar(m, s, lt, 0);
    AtChar(m, s, lt, 1);
  }

  lemma CloseRead(m: string, lt: nat, tag: string, before: string, after: string)
    requires NameOk(tag) && AllIn(before, " \t\r\n") && AllIn(after, " \t\r\n")
    requires At(m, CloseText(tag, before, after), lt)
    ensures lt + 2 < |m| && m[lt] == '<' && m[lt + 1] == '/'
    ensures var gt := Until(m, '>', lt + 2);
      && gt < |m| && Trim(m[lt + 2..gt], " \t\r\n") == tag
      && gt + 1 == lt + |CloseText(tag, before, after)|
  {
    hide At; hide Trim;
    var s := before + tag + after;
    AtParts(m, "</", s + ">", lt);
    AtParts(m, s, ">", lt + 2);
    AtChar(m, "</", lt, 0);
    AtChar(m, "</", lt, 1);
    AtChar(m, ">", lt + 2 + |s|, 0);
    assert '>' !in s;
    UntilRead(m, '>', lt + 2, s);
    AtSlice(m, s, lt + 2);
    NameUnblank(tag);
    TrimIs(before, tag, after, " \t\r\n");
  }

  lemma NameUnblank(tag: string)
    requires NameOk(tag)
    ensures Trimmed(tag, " \t\r\n")
  {
    assert forall c :: c in " \t\r\n" ==> EndsName(c);
  }
}
