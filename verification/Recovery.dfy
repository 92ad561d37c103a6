/** And nothing else is read: whatever the reader takes is something an author may write, and stands for its tree. */
module Recovery {
  import opened Wrappers
  import opened Markup
  import opened Trees
  import opened Edges
  import opened Sources
  import opened Reading
  import Scanner

  // ---- searching and trimming ----

  lemma {:induction false} IndexOfFirst(s: string, pat: string, i: nat)
    requires pat != ""
    ensures forall k :: i <= k && (IndexOf(s, pat, i).Some? ==> k < IndexOf(s, pat, i).value) ==> !At(s, pat, k)
    decreases |s| - i
  {
    if !At(s, pat, i) && i < |s| {
      IndexOfFirst(s, pat, i + 1);
    }
  }

  lemma {:induction false} TrimLeftShape(s: string, cs: string) returns (a: string)
    ensures s == a + TrimLeft(s, cs) && AllIn(a, cs) && (TrimLeft(s, cs) != "" ==> TrimLeft(s, cs)[0] !in cs)
    ensures s != "" && s[0] !in cs ==> a == ""
    decreases |s|
  {
    if s != "" && s[0] in cs {
      var b := TrimLeftShape(s[1..], cs);
      a := [s[0]] + b;
      assert s == [s[0]] + s[1..];
    } else {
      a := "";
      assert "" + s == s;
    }
  }

  lemma {:induction false} TrimRightShape(s: string, cs: string) returns (b: string)
    ensures s == TrimRight(s, cs) + b && AllIn(b, cs)
    ensures TrimRight(s, cs) != "" ==> TrimRight(s, cs)[|TrimRight(s, cs)| - 1] !in cs
    ensures s != "" && s[|s| - 1] !in cs ==> b == ""
    decreases |s|
  {
    if s != "" && s[|s| - 1] in cs {
      var c := TrimRightShape(s[..|s| - 1], cs);
      b := c + [s[|s| - 1]];
      assert s == s[..|s| - 1] + [s[|s| - 1]];
    } else {
      b := "";
      assert s + "" == s;
    }
  }

  /** Trimming drops what may be dropped at the two ends, all of it and nothing else. */
  lemma TrimShape(s: string, cs: string) returns (a: string, b: string)
    ensures s == a + Trim(s, cs) + b && AllIn(a, cs) && AllIn(b, cs) && Trimmed(Trim(s, cs), cs)
    ensures s != "" && s[0] !in cs ==> a == ""
    ensures s != "" && s[|s| - 1] !in cs ==> b == ""
  {
    a := TrimLeftShape(s, cs);
    var t := TrimLeft(s, cs);
    b := TrimRightShape(t, cs);
    if TrimRight(t, cs) != "" {
      assert t[0] == TrimRight(t, cs)[0];
    }
    if t != "" {
      assert s[|s| - 1] == t[|t| - 1];
    }
    assert a + (TrimRight(t, cs) + b) == a + TrimRight(t, cs) + b;
  }

  lemma NoPairSlice(m: string, c: char, i: nat, j: nat)
    requires i <= j <= |m| && forall k :: i <= k < j - 1 ==> !At(m, [c, c], k)
    ensures NoPair(m[i..j], c)
  {
    forall k | 0 <= k < j - i - 1
      ensures !(m[i..j][k] == c && m[i..j][k + 1] == c)
    {
      PairIs(m, c, i + k);
    }
  }

  /** Before the first pair stands none of its characters. */
  lemma BeforePair(m: string, c: char, i: nat, j: nat)
    requires i <= j && At(m, [c, c], j) && forall k :: i <= k < j ==> !At(m, [c, c], k)
    ensures j > i ==> m[j - 1] != c
    ensures NoPair(m[i..j], c)
  {
    PairIs(m, c, j);
    NoPairSlice(m, c, i, j);
    if j > i {
      PairIs(m, c, j - 1);
    }
  }

  // ---- placeholders ----

  /** Any content of a brace pair is blanks, a name, and a type if there is a colon. */
  lemma SlotFrom(c: string) returns (s: Slot)
    requires NoPair(c, '}') && (c != "" ==> c[|c| - 1] != '}')
    ensures SlotOk(s) && Inside(s) == c && SlotPart(s) == ReadIdent(Trim(c, " \t\r\n"))
  {
    hide Trim; hide NoPair; hide AllIn; hide ReadIdent;
    var core := Trim(c, " \t\r\n");
    var a, b := TrimShape(c, " \t\r\n");
    var name, typing := CoreFrom(core);
    s := Slot(a, name, typing, b);
    assert Core(s) == core;
  }

  lemma CoreFrom(core: string) returns (name: string, typing: Option<Typing>)
    requires Trimmed(core, " \t\r\n")
    ensures name + TypingText(typing) == core && ':' !in name
    ensures typing.Some? ==>
      && Trimmed(name, " \t") && Trimmed(typing.value.code, " \t")
      && AllIn(typing.value.left, " \t") && AllIn(typing.value.right, " \t")
    ensures SlotPart(Slot("", name, typing, "")) == ReadIdent(core)
  {
    hide Trim; hide AllIn; hide Trimmed; hide ReadIdent; hide Until; hide MapType;
    var colon := Until(core, ':', 0);
    if colon == |core| {
      assert core + "" == core;
      NoColon(core);
      UntypedCore(core);
      name, typing := core, None;
    } else {
      var raw, rest := core[..colon], core[colon + 1..];
      EndsUnblank(core, colon);
      var left, right, code;
      name, left := NameOf(raw);
      right, code := CodeOf(rest);
      var t := Typing(left, right, code);
      typing := Some(t);
      ColonJoins(core, colon, name, left);
      TypedCore(name, t);
      TypedPart("", name, t, "");
    }
  }

  lemma ColonJoins(core: string, colon: nat, name: string, left: string)
    requires colon == Until(core, ':', 0) && colon < |core| && name + left == core[..colon]
    ensures name + (left + (":" + core[colon + 1..])) == core && ':' !in name
  {
    hide Until;
    var rest := core[colon + 1..];
    CutAt(core, colon);
    assert name + (left + (":" + rest)) == core[..colon] + (":" + rest);
    forall k | 0 <= k < |name|
      ensures name[k] != ':'
    {
      assert name[k] == core[..colon][k] == core[k];
    }
  }

  lemma CutAt(core: string, colon: nat)
    requires colon == Until(core, ':', 0) && colon < |core|
    ensures core == core[..colon] + (":" + core[colon + 1..])
  {
    hide Until;
    ColonFound(core, colon);
    SplitFirst(core[colon..]);
    assert core == core[..colon] + core[colon..];
    assert core[colon..][1..] == core[colon + 1..];
  }

  lemma ColonFound(core: string, colon: nat)
    requires colon == Until(core, ':', 0) && colon < |core|
    ensures core[colon] == ':'
  {
  }

  lemma SplitFirst(s: string)
    requires s != "" && s[0] == ':'
    ensures s == ":" + s[1..]
  {
  }

  lemma NoColon(core: string)
    requires Until(core, ':', 0) == |core|
    ensures ':' !in core
  {
  }

  lemma NameOf(raw: string) returns (name: string, left: string)
    requires raw != "" ==> raw[0] !in " \t"
    ensures name + left == raw && Trimmed(name, " \t") && AllIn(left, " \t")
  {
    hide Trim;
    var x;
    x, left := TrimShape(raw, " \t");
    name := Trim(raw, " \t");
    NoEdge(raw, x, name, left);
    assert "" + name + left == name + left;
  }

  lemma CodeOf(rest: string) returns (right: string, code: string)
    requires rest != "" ==> rest[|rest| - 1] !in " \t"
    ensures right + code == rest && Trimmed(code, " \t") && AllIn(right, " \t")
  {
    hide Trim;
    var y;
    right, y := TrimShape(rest, " \t");
    code := Trim(rest, " \t");
    NoEdge(rest, right, code, y);
    assert right + code + "" == right + code;
  }

  lemma EndsUnblank(core: string, colon: nat)
    requires Trimmed(core, " \t\r\n") && colon < |core|
    ensures colon > 0 ==> core[..colon][0] !in " \t"
    ensures colon + 1 < |core| ==> core[colon + 1..][|core| - colon - 2] !in " \t"
  {
    assert forall c :: c in " \t" ==> c in " \t\r\n";
  }

  lemma NoEdge(s: string, a: string, t: string, b: string)
    requires s == a + t + b
    ensures s == "" ==> a == "" && b == ""
  {
  }

  lemma HoleFrom(m: string, i: nat) returns (s: Slot)
    requires At(m, ['{', '{'], i) && ReadPlaceholder(m, i).Some?
    ensures var (p, end) := ReadPlaceholder(m, i).value;
      SlotOk(s) && SlotPart(s) == p && i + 4 <= end <= |m| && SlotText(s) == m[i..end]
  {
    hide ReadIdent; hide Trim; hide SlotOk; hide NoPair; hide Inside;
    var end := IndexOf(m, "}}", i + 2).value;
    IndexOfFirst(m, "}}", i + 2);
    assert "}}" == ['}', '}'];
    BeforePair(m, '}', i + 2, end);
    var c := m[i + 2..end];
    s := SlotFrom(c);
    PairIs(m, '{', i);
    PairIs(m, '}', end);
    assert m[i..end + 2] == "{{" + c + "}}";
  }

  // ---- runs ----

  lemma {:induction false} BitsFrom(run: string, k: nat) returns (bits: seq<Bit>)
    requires k <= |run| && SplitParts(run, k).Some?
    ensures BitsOk(bits) && BitsText(bits) == run[k..] && BitsParts(bits) == SplitParts(run, k).value
    decreases |run| - k
  {
    hide ReadPlaceholder; hide IndexOf; hide At; hide BitsOk; hide BitsText; hide BitsParts; hide SplitParts;
    hide SlotOk; hide SlotText; hide SlotPart; hide NoPair;
    var open := IndexOf(run, "{{", k);
    IndexOfFirst(run, "{{", k);
    assert "{{" == ['{', '{'];
    if open.None? {
      Scanner.SplitEnd(run, k);
      NoPairSlice(run, '{', k, |run|);
      assert run[k..|run|] == run[k..];
      bits := if k < |run| then [Chars(run[k..])] else [];
      EndBits(run[k..]);
    } else {
      Scanner.SplitRound(run, k, open.value);
      var (p, end) := ReadPlaceholder(run, open.value).value;
      BeforePair(run, '{', k, open.value);
      var s := HoleFrom(run, open.value);
      var rest := BitsFrom(run, end);
      bits := (if open.value > k then [Chars(run[k..open.value])] else []) + [Hole(s)] + rest;
      BitsJoin(run, k, open.value, s, end, rest);
    }
  }

  lemma EndBits(text: string)
    requires NoPair(text, '{')
    ensures var bits := if text != "" then [Chars(text)] else [];
      BitsOk(bits) && BitsText(bits) == text && BitsParts(bits) == if text != "" then [Lit(text)] else []
  {
    if text != "" {
      assert [Chars(text)][1..] == [];
      assert text + "" == text;
    }
  }

  lemma BitsJoin(run: string, k: nat, open: nat, s: Slot, end: nat, rest: seq<Bit>)
    requires k <= open < end <= |run| && NoPair(run[k..open], '{') && (open > k ==> run[open - 1] != '{')
    requires SlotOk(s) && SlotText(s) == run[open..end] && BitsOk(rest) && BitsText(rest) == run[end..]
    ensures var bits := (if open > k then [Chars(run[k..open])] else []) + [Hole(s)] + rest;
      && BitsOk(bits) && BitsText(bits) == run[k..]
      && BitsParts(bits) == (if open > k then [Lit(run[k..open])] else []) + [SlotPart(s)] + BitsParts(rest)
  {
    hide SlotOk; hide SlotText; hide SlotPart; hide NoPair; hide BitsText; hide BitsOk; hide BitsParts;
    HoleFirst(s, rest);
    assert [] + [Hole(s)] + rest == [Hole(s)] + rest;
    assert [] + [SlotPart(s)] + BitsParts(rest) == [SlotPart(s)] + BitsParts(rest);
    assert run[open..] == run[open..end] + run[end..];
    if open > k {
      var text := run[k..open];
      CharsFront(text, [Hole(s)] + rest);
      assert [Chars(text)] + [Hole(s)] + rest == [Chars(text)] + ([Hole(s)] + rest);
      assert [Lit(text)] + [SlotPart(s)] + BitsParts(rest) == [Lit(text)] + ([SlotPart(s)] + BitsParts(rest));
      assert run[k..] == text + run[open..];
    }
  }

  lemma HoleFirst(s: Slot, rest: seq<Bit>)
    requires SlotOk(s) && BitsOk(rest)
    ensures var bits := [Hole(s)] + rest;
      && BitsOk(bits) && BitsText(bits) == SlotText(s) + BitsText(rest)
      && BitsParts(bits) == [SlotPart(s)] + BitsParts(rest)
  {
    hide SlotOk; hide SlotText; hide SlotPart; hide OpensNone;
    var bits := [Hole(s)] + rest;
    assert bits[1..] == rest;
    assert BitOk(bits[0]) && forall k :: 1 <= k < |bits| ==> bits[k] == rest[k - 1];
  }

  lemma CharsFront(text: string, rest: seq<Bit>)
    requires text != "" && NoPair(text, '{') && text[|text| - 1] != '{' && BitsOk(rest) && rest != [] && rest[0].Hole?
    ensures var bits := [Chars(text)] + rest;
      BitsOk(bits) && BitsText(bits) == text + BitsText(rest) && BitsParts(bits) == [Lit(text)] + BitsParts(rest)
  {
    hide SlotOk; hide SlotText; hide SlotPart; hide NoPair;
    var bits := [Chars(text)] + rest;
    assert bits[1..] == rest;
    assert BitOk(bits[0]) && forall k :: 1 <= k < |bits| ==> bits[k] == rest[k - 1];
    assert OpensNone(text);
  }

  lemma RunFrom(run: string) returns (r: SRun)
    requires '<' !in run && ReadRun(run).Some?
    ensures RunOk(r) && RunText(r) == run && RunOf(r) == ReadRun(run).value
  {
    hide TrimEdges; hide SplitParts; hide LeadKept; hide TailKept; hide IndexOf; hide BitsOk; hide BitsText; hide White;
    hide HasPlaceholder; hide HasHole; hide BitsParts;
    var s := TrimEdges(run);
    var a, b := TrimEdgesSays(run);
    assert forall k :: 0 <= k < |s| ==> run[|a| + k] == s[k];
    NoneHeld();
    var bits := TextFrom(s);
    if s == "" {
      WhiteBoth(a, b);
      r := SRun(a + b, bits, "");
      assert a + "" + b == a + b + "" + "";
    } else {
      r := SRun(a, bits, b);
    }
    HolesSeen(bits);
  }

  lemma NoneHeld()
    ensures !HasPlaceholder("")
  {
  }

  lemma WhiteBoth(a: string, b: string)
    requires White(a) && White(b) && (a == "" || '\n' in a) && (b == "" || '\n' in b)
    ensures White(a + b) && White("") && (a + b == "" || '\n' in a + b)
  {
    if a != "" {
      assert '\n' in a + b;
    }
  }

  lemma TextFrom(s: string) returns (bits: seq<Bit>)
    requires HasPlaceholder(s) ==> SplitParts(s, 0).Some?
    ensures BitsOk(bits) && BitsText(bits) == s
  {
    hide SplitParts; hide BitsOk; hide BitsText; hide IndexOf;
    assert s[0..] == s && s[0..|s|] == s;
    if HasPlaceholder(s) {
      bits := BitsFrom(s, 0);
    } else {
      IndexOfFirst(s, "{{", 0);
      assert "{{" == ['{', '{'];
      NoPairSlice(s, '{', 0, |s|);
      EndBits(s);
      bits := if s != "" then [Chars(s)] else [];
    }
  }

  // ---- attributes ----

  lemma ValueFrom(m: string, gap: string, name: string, left: string, right: string, v: nat) returns (a: SAttr)
    requires v <= |m| && ReadValue(m, name, v).Some?
    requires NameOk(name) && White(gap) && White(left) && White(right)
    ensures var (r, end) := ReadValue(m, name, v).value;
      && SAttrOk(a) && !a.SBare? && a.gap == gap && a.name == name && a.left == left && a.right == right
      && AttrOf(a) == r && ValueText(a) == m[v..end]
  {
    hide SplitParts; hide ReadPlaceholder; hide BitsOk; hide BitsText; hide SlotOk; hide SlotText; hide White; hide At;
    hide HasPlaceholder; hide HasHole; hide BitsParts; hide SlotPart;
    if v < |m| && m[v] == '"' {
      var q := Until(m, '"', v + 1);
      var value := m[v + 1..q];
      assert '"' !in value;
      var bits := TextFrom(value);
      HolesSeen(bits);
      a := SQuoted(gap, name, left, right, bits);
      assert QUOTE + value + QUOTE == m[v..q + 1];
    } else {
      assert "{{" == ['{', '{'];
      var s := HoleFrom(m, v);
      a := SBraced(gap, name, left, right, s);
    }
  }

  lemma NameFrom(m: string, i: nat)
    requires i <= |m| && NameEnd(m, i) > i
    ensures NameOk(m[i..NameEnd(m, i)])
  {
  }

  lemma {:induction false} SpaceIsWhite(m: string, i: nat)
    requires i <= |m|
    ensures White(m[i..SpaceEnd(m, i)])
    ensures SpaceEnd(m, i) < |m| ==> !IsSpace(m[SpaceEnd(m, i)])
    decreases |m| - i
  {
    if i < |m| && IsSpace(m[i]) {
      SpaceIsWhite(m, i + 1);
      assert m[i..SpaceEnd(m, i)] == [m[i]] + m[i + 1..SpaceEnd(m, i)];
    }
  }

  /** An attribute read at j, where its own text ends, and that only white space follows up to where reading stopped. */
  lemma AttrFrom(m: string, j: nat, gap: string) returns (a: SAttr, n: nat)
    requires j < |m| && m[j] != '>' && m[j] != '/' && White(gap) && ReadAttr(m, j).Some?
    ensures var (r, end) := ReadAttr(m, j).value;
      && SAttrOk(a) && a.gap == gap && AttrOf(a) == r && j < n <= end <= |m|
      && AttrText(a) == m[j..n] && White(m[n..end])
      && (if a.SBare? then n < |m| && EndsName(m[n]) && end == SpaceEnd(m, n) else n == end)
    ensures !EndsName(m[j])
  {
    hide ReadValue; hide White; hide ValueText; hide BitsOk; hide BitsText; hide SlotOk; hide AttrOf;
    n := NameEnd(m, j);
    var name := m[j..n];
    NameFrom(m, j);
    SpaceIsWhite(m, n);
    var e := SpaceEnd(m, n);
    if m[e] != '=' {
      a := SBare(gap, name);
      assert AttrOf(a) == Bare(name) by { BareOf(gap, name); }
    } else {
      SpaceIsWhite(m, e + 1);
      var v := SpaceEnd(m, e + 1);
      a := ValueFrom(m, gap, name, m[n..e], m[e + 1..v], v);
      var end := ReadValue(m, name, v).value.1;
      ValuedText(m, j, n, e, v, end);
      n := end;
      NothingWhite(m, n);
    }
  }

  lemma BareOf(gap: string, name: string)
    ensures AttrOf(SBare(gap, name)) == Bare(name)
  {
  }

  lemma NothingWhite(m: string, n: nat)
    requires n <= |m|
    ensures White(m[n..n])
  {
  }

  lemma ValuedText(m: string, j: nat, n: nat, e: nat, v: nat, end: nat)
    requires j <= n <= e < v + 1 <= end + 1 <= |m| + 1 && e + 1 <= v && m[e] == '='
    ensures m[j..n] + (m[n..e] + ("=" + (m[e + 1..v] + m[v..end]))) == m[j..end]
  {
    assert m[e + 1..v] + m[v..end] == m[e + 1..end];
    assert "=" + m[e + 1..end] == m[e..end];
    assert m[n..e] + m[e..end] == m[n..end];
  }

  /** The attributes of a tag, from where the white space before the first began. */
  lemma {:induction false} AttrsFromText(m: string, i0: nat, i: nat) returns (attrs: seq<SAttr>, pad: string)
    requires i0 <= i <= |m| && White(m[i0..i]) && ReadAttrs(m, i).Some?
    ensures var (r, end) := ReadAttrs(m, i).value;
      && SAttrsOk(attrs) && White(pad) && AttrsOf(attrs) == r && i0 <= end < |m|
      && AttrsText(attrs) + pad == m[i0..end]
    ensures attrs != [] && i0 < |m| && EndsName(m[i0]) ==> attrs[0].gap != ""
    decreases |m| - i
  {
    hide ReadAttr; hide White; hide SAttrOk; hide AttrOf; hide AttrText; hide SAttrsOk; hide AttrsOf; hide AttrsText;
    hide SpaceEnd; hide EndsName;
    var j := SpaceEnd(m, i);
    SpaceIsWhite(m, i);
    WhiteJoin(m, i0, i, j);
    if m[j] == '>' || m[j] == '/' {
      attrs, pad := [], m[i0..j];
      NoneWritten(pad);
    } else {
      var a, n := AttrFrom(m, j, m[i0..j]);
      var end := ReadAttr(m, j).value.1;
      var rest;
      rest, pad := AttrsFromText(m, n, end);
      attrs := [a] + rest;
      AttrsJoin(a, rest);
      TextJoins(m, i0, j, n, ReadAttrs(m, i).value.1, AttrsText(rest), pad);
    }
  }

  lemma NoneWritten(pad: string)
    ensures SAttrsOk([]) && AttrsOf([]) == [] && AttrsText([]) + pad == pad
  {
  }

  lemma TextJoins(m: string, i: nat, j: nat, n: nat, end: nat, x: string, pad: string)
    requires i <= j <= n <= end <= |m| && x + pad == m[n..end]
    ensures m[i..j] + (m[j..n] + x) + pad == m[i..end]
  {
    assert m[i..j] + (m[j..n] + x) + pad == m[i..j] + (m[j..n] + (x + pad));
  }

  lemma WhiteJoin(m: string, a: nat, b: nat, c: nat)
    requires a <= b <= c <= |m| && White(m[a..b]) && White(m[b..c])
    ensures White(m[a..c])
  {
    assert m[a..c] == m[a..b] + m[b..c];
  }

  lemma AttrsJoin(a: SAttr, rest: seq<SAttr>)
    requires SAttrOk(a) && SAttrsOk(rest) && (a.SBare? && rest != [] ==> rest[0].gap != "")
    ensures SAttrsOk([a] + rest) && AttrsOf([a] + rest) == [AttrOf(a)] + AttrsOf(rest)
    ensures AttrsText([a] + rest) == a.gap + (AttrText(a) + AttrsText(rest))
  {
    hide SAttrOk; hide AttrOf;
    var attrs := [a] + rest;
    assert attrs[1..] == rest;
    assert forall k :: 1 <= k < |attrs| ==> attrs[k] == rest[k - 1];
  }

  // ---- elements ----

  /** What is read as an element is one that an author may write, and stands for the tree returned. */
  lemma {:induction false} ElemFrom(m: string, i: nat) returns (s: SElem)
    requires i < |m| && m[i] == '<' && ReadElem(m, i).Some?
    ensures var (e, end) := ReadElem(m, i).value;
      SElemOk(s) && i <= end <= |m| && ElemText(s) == m[i..end] && ElemOf(s) == e
    decreases |m| - i, 0
  {
    hide ReadAttrs; hide ReadNodes; hide SAttrsOk; hide AttrsOf; hide AttrsText; hide White; hide SNodesOk;
    hide NodesOf;
    hide NodesText; hide CloseText; hide VoidName; hide AnyHole; hide Separate; hide NameOk; hide ReadElem;
    hide NameEnd;
    ElemIs(m, i);
    var n := NameEnd(m, i + 1);
    var tag := m[i + 1..n];
    NothingWhite(m, n);
    var attrs, pad := AttrsFromText(m, n, n);
    var j := ReadAttrs(m, n).value.1;
    TagEnds(m, n);
    var end := ReadElem(m, i).value.1;
    var ending := Slash;
    if m[j] == '/' {
      assert m[j..j + 2] == "/>";
    } else if VoidName(tag) {
      ending := Open;
      assert m[j..j + 1] == ">";
    } else {
      var nodes, before, after := NodesFrom(m, j + 1, tag);
      SeparateIs(nodes);
      ending := Content(nodes, before, after);
      assert m[j..end] == ">" + m[j + 1..end];
    }
    s := SElem(tag, attrs, pad, ending);
    ElemJoins(m, i, n, j, end);
  }

  /** The ways an element that is read can end. */
  lemma ElemIs(m: string, i: nat)
    requires i < |m| && ReadElem(m, i).Some?
    ensures var n := NameEnd(m, i + 1); var tag := m[i + 1..n]; var (e, end) := ReadElem(m, i).value;
      && NameOk(tag) && tag != "" && tag[0] != '!' && ReadAttrs(m, n).Some? && (n < |m| ==> EndsName(m[n]))
      && var (attrs, j) := ReadAttrs(m, n).value;
         if m[j] == '/' then
           j + 1 < |m| && m[j + 1] == '>' && end == j + 2
           && e == Elem(tag, attrs, if VoidName(tag) then Void(true) else Normal, Nil)
         else if VoidName(tag) then end == j + 1 && e == Elem(tag, attrs, Void(false), Nil)
         else
           ReadNodes(m, j + 1, tag).Some? && Separate(ReadNodes(m, j + 1, tag).value.0)
           && end == ReadNodes(m, j + 1, tag).value.1
           && e == Elem(tag, attrs, Normal, ReadNodes(m, j + 1, tag).value.0)
  {
    hide ReadAttrs; hide ReadNodes; hide Separate; hide VoidName; hide NameOk;
    NameFrom(m, i + 1);
    VoidTags(m[i + 1..NameEnd(m, i + 1)]);
  }

  lemma TagEnds(m: string, n: nat)
    requires n <= |m| && ReadAttrs(m, n).Some? && (n < |m| ==> EndsName(m[n]))
    ensures n < |m| && EndsName(m[n])
  {
    hide ReadAttr;
  }

  lemma ElemJoins(m: string, i: nat, n: nat, j: nat, end: nat)
    requires i < n <= j <= end <= |m| && m[i] == '<'
    ensures "<" + (m[i + 1..n] + (m[n..j] + m[j..end])) == m[i..end]
  {
    assert m[n..j] + m[j..end] == m[n..end];
    assert m[i + 1..n] + m[n..end] == m[i + 1..end];
  }

  lemma {:induction false} NodesFrom(m: string, i: nat, tag: string)
      returns (ns: SNodes, before: string, after: string)
    requires i <= |m| && ReadNodes(m, i, tag).Some?
    ensures SNodesOk(ns) && NodesOf(ns) == ReadNodes(m, i, tag).value.0
    ensures AllIn(before, " \t\r\n") && AllIn(after, " \t\r\n")
    ensures NodesText(ns) + CloseText(tag, before, after) == m[i..ReadNodes(m, i, tag).value.1]
    decreases |m| - i, 1
  {
    hide ReadElem; hide ReadRun; hide SElemOk; hide RunOk; hide ElemText; hide ElemOf; hide RunText; hide RunOf;
    hide CloseText; hide Trim; hide AllIn; hide ReadNodes; hide Until; hide IsUpper;
    var lt := Until(m, '<', i);
    NodesAre(m, i, tag);
    var run := RunFrom(m[i..lt]);
    var end := ReadNodes(m, i, tag).value.1;
    if m[lt + 1] == '/' {
      ns := Last(run);
      before, after := CloseFrom(m, lt, tag);
      assert m[i..lt] + m[lt..end] == m[i..end];
    } else {
      var child := ElemFrom(m, lt);
      ChildTag(m, lt);
      TagOf(child);
      SpaceIs(m[lt + 1]);
      var next := ReadElem(m, lt).value.1;
      var rest;
      rest, before, after := NodesFrom(m, next, tag);
      ns := More(run, child, rest);
      RunHasHole(run);
      ThreeJoin(m, i, lt, next, end, NodesText(rest), CloseText(tag, before, after));
    }
  }

  /** The two ways content goes on behind a run. */
  lemma NodesAre(m: string, i: nat, tag: string)
    requires i <= |m| && ReadNodes(m, i, tag).Some?
    ensures var lt := Until(m, '<', i); var r := ReadNodes(m, i, tag).value;
      && lt + 1 < |m| && m[lt] == '<' && '<' !in m[i..lt] && ReadRun(m[i..lt]).Some?
      && (m[lt + 1] == '/' ==>
            var gt := Until(m, '>', lt + 2);
            gt < |m| && Trim(m[lt + 2..gt], " \t\r\n") == tag && r == (ReadRun(m[i..lt]).value, gt + 1))
      && (m[lt + 1] != '/' ==>
            && !IsUpper(m[lt + 1]) && ReadElem(m, lt).Some? && ReadNodes(m, ReadElem(m, lt).value.1, tag).Some?
            && var rest := ReadNodes(m, ReadElem(m, lt).value.1, tag).value;
               r == (Prepend(ReadRun(m[i..lt]).value, Cons(Child(ReadElem(m, lt).value.0), rest.0)), rest.1))
  {
    hide ReadRun; hide Trim; hide ReadElem;
    if Until(m, '<', i) < |m| {
      LoneTag(m, Until(m, '<', i));
    }
  }

  lemma LoneTag(m: string, lt: nat)
    requires lt < |m|
    ensures ReadElem(m, lt).Some? ==> lt + 1 < |m|
  {
    hide ReadAttrs; hide ReadNodes;
  }

  lemma TagOf(s: SElem)
    ensures ElemOf(s).tag == s.tag
  {
  }

  lemma ThreeJoin(m: string, i: nat, a: nat, b: nat, end: nat, x: string, y: string)
    requires i <= a <= b <= end <= |m| && x + y == m[b..end]
    ensures m[i..a] + (m[a..b] + x) + y == m[i..end]
  {
    assert m[i..a] + (m[a..b] + x) + y == m[i..a] + (m[a..b] + (x + y));
  }

  lemma ChildTag(m: string, lt: nat)
    requires lt < |m| && ReadElem(m, lt).Some?
    ensures lt + 1 < |m| && ReadElem(m, lt).value.0.tag != "" && ReadElem(m, lt).value.0.tag[0] == m[lt + 1]
  {
    hide ReadAttrs; hide ReadNodes;
  }

  lemma CloseFrom(m: string, lt: nat, tag: string) returns (before: string, after: string)
    requires lt + 2 <= |m| && m[lt] == '<' && m[lt + 1] == '/'
    requires var gt := Until(m, '>', lt + 2); gt < |m| && Trim(m[lt + 2..gt], " \t\r\n") == tag
    ensures AllIn(before, " \t\r\n") && AllIn(after, " \t\r\n")
    ensures CloseText(tag, before, after) == m[lt..Until(m, '>', lt + 2) + 1]
  {
    hide Trim; hide AllIn;
    var gt := Until(m, '>', lt + 2);
    before, after := TrimShape(m[lt + 2..gt], " \t\r\n");
    assert m[lt..gt + 1] == "</" + (m[lt + 2..gt] + ">");
  }

  // ---- exactly ----

  /** The text from i to end may be written for the tree e. */
  ghost predicate Writes(m: string, i: nat, end: nat, e: Elem) {
    i <= end <= |m| && exists s :: SElemOk(s) && ElemText(s) == m[i..end] && ElemOf(s) == e
  }

  /**
   * An element is read, up to end, exactly if the markup from i to end is one that an
   * author may write for it. Everything else is refused.
   */
  lemma ReadsExactly(m: string, i: nat, end: nat, e: Elem)
    requires i < |m| && m[i] == '<'
    ensures ReadElem(m, i) == Some((e, end)) <==> Writes(m, i, end, e)
  {
    hide ReadElem; hide SElemOk; hide ElemText; hide ElemOf; hide At;
    if ReadElem(m, i) == Some((e, end)) {
      var s := ElemFrom(m, i);
    }
    if Writes(m, i, end, e) {
      var s :| SElemOk(s) && ElemText(s) == m[i..end] && ElemOf(s) == e;
      StandsThere(m, i, end);
      ElemRead(m, i, s);
    }
  }

  lemma StandsThere(m: string, i: nat, end: nat)
    requires i <= end <= |m|
    ensures At(m, m[i..end], i)
  {
  }
}
