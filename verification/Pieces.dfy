/** The grammar of whole component markup, and that exactly this is read. */
module Pieces {
  import opened Wrappers
  import opened Markup
  import opened Trees
  import opened Edges
  import opened Sources
  import opened Reading
  import opened Recovery
  import opened TopLevel

  // ---- what an author may write ----

  datatype SArg =
    | SLiteral(gap: string, name: string, left: string, right: string, text: string)
    | SForward(gap: string, name: string, left: string, right: string, slot: Slot)

  /** An element, or a component tag that is closed by a slash or by a closing tag behind nothing but white space. */
  datatype SPiece =
    | SOwn(gap: string, elem: SElem)
    | SCall(gap: string, name: string, args: seq<SArg>, pad: string, inside: Option<string>)

  function ArgValueText(a: SArg): string {
    match a
    case SLiteral(_, _, _, _, text) => QUOTE + text + QUOTE
    case SForward(_, _, _, _, slot) => SlotText(slot)
  }

  function ArgText(a: SArg): string {
    a.name + (a.left + ("=" + (a.right + ArgValueText(a))))
  }

  function ArgsText(args: seq<SArg>): string {
    if args == [] then "" else args[0].gap + (ArgText(args[0]) + ArgsText(args[1..]))
  }

  function CallEnd(name: string, inside: Option<string>): string {
    match inside
    case None => "/>"
    case Some(w) => ">" + (w + ("</" + name + ">"))
  }

  function PieceText(p: SPiece): string {
    match p
    case SOwn(_, e) => ElemText(e)
    case SCall(_, name, args, pad, inside) => "<" + (name + ((ArgsText(args) + pad) + CallEnd(name, inside)))
  }

  function PiecesText(ps: seq<SPiece>): string {
    if ps == [] then "" else ps[0].gap + (PieceText(ps[0]) + PiecesText(ps[1..]))
  }

  function ArgOf(a: SArg): Arg {
    match a
    case SLiteral(_, name, _, _, text) => Literal(name, text)
    case SForward(_, name, _, _, slot) => Forward(name, SlotPart(slot))
  }

  function ArgsOf(args: seq<SArg>): (r: seq<Arg>)
    ensures |r| == |args|
  {
    seq(|args|, k requires 0 <= k < |args| => ArgOf(args[k]))
  }

  function PieceOf(p: SPiece): Piece {
    match p
    case SOwn(_, e) => Own(ElemOf(e))
    case SCall(_, name, args, _, _) => Call(name, ArgsOf(args))
  }

  function PiecesOf(ps: seq<SPiece>): (r: seq<Piece>)
    ensures |r| == |ps|
  {
    seq(|ps|, k requires 0 <= k < |ps| => PieceOf(ps[k]))
  }

  ghost predicate ArgOk(a: SArg) {
    && NameOk(a.name) && White(a.gap) && White(a.left) && White(a.right)
    && (a.SLiteral? ==> '"' !in a.text) && (a.SForward? ==> SlotOk(a.slot))
  }

  ghost predicate ArgsOk(args: seq<SArg>) {
    forall k :: 0 <= k < |args| ==> ArgOk(args[k])
  }

  predicate Capital(name: string) {
    name != "" && 65 <= name[0] as int <= 90
  }

  /** A capital names a component, anything else an element. */
  ghost predicate PieceOk(p: SPiece) {
    && White(p.gap)
    && match p
       case SOwn(_, e) => SElemOk(e) && !Capital(e.tag)
       case SCall(_, name, args, pad, inside) =>
         && NameOk(name) && Capital(name)
         && ArgsOk(args) && (args != [] ==> args[0].gap != "") && White(pad)
         && (inside.Some? ==> White(inside.value))
  }

  ghost predicate PiecesOk(ps: seq<SPiece>) {
    forall k :: 0 <= k < |ps| ==> PieceOk(ps[k])
  }

  // ---- all of it is read ----

  lemma ArgValueRead(m: string, v: nat, a: SArg)
    requires ArgOk(a) && At(m, ArgValueText(a), v)
    ensures ReadArgValue(m, a.name, v) == Some((ArgOf(a), v + |ArgValueText(a)|))
    ensures v < |m| && !IsSpace(m[v])
  {
    hide SlotText; hide SlotOk; hide ReadPlaceholder; hide SlotPart; hide At; hide Until; hide White; hide NameOk;
    match a
    case SLiteral(_, _, _, _, text) => QuotedStands(m, v, text);
    case SForward(_, _, _, _, slot) =>
      SlotRead(m, v, slot);
      BracesStand(m, v, slot);
      assert "{{" == ['{', '{'];
      PairIs(m, '{', v);
      assert At(m, "{{", v);
  }

  lemma ArgRead(m: string, i: nat, a: SArg)
    requires ArgOk(a) && At(m, ArgText(a), i)
    ensures i < |m| && !EndsName(m[i])
    ensures ReadArg(m, i) == Some((ArgOf(a), i + |ArgText(a)|))
  {
    hide ReadArgValue; hide ArgValueText; hide At; hide SpaceEnd; hide NameEnd; hide SlotOk; hide ArgOf; hide White;
    var n, v := i + |a.name|, ArgValueText(a);
    AtParts(m, a.name, a.left + ("=" + (a.right + v)), i);
    PadThen(m, n, a.left, "=" + (a.right + v));
    AtParts(m, "=", a.right + v, n + |a.left|);
    AtParts(m, a.right, v, n + |a.left| + 1);
    ArgValueRead(m, n + |a.left| + 1 + |a.right|, a);
    SpaceRead(m, n + |a.left| + 1, a.right);
    AtChar(m, a.name, i, 0);
    NameRead(m, i, a.name);
    AtSlice(m, a.name, i);
  }

  lemma ArgsSplit(m: string, i: nat, args: seq<SArg>, pad: string)
    requires ArgsOk(args) && args != [] && At(m, ArgsText(args) + pad, i)
    ensures var j := i + |args[0].gap|; var k := j + |ArgText(args[0])|;
      && At(m, args[0].gap, i) && At(m, ArgText(args[0]), j) && At(m, ArgsText(args[1..]) + pad, k)
      && k + |ArgsText(args[1..]) + pad| == i + |ArgsText(args) + pad|
    ensures ArgOk(args[0]) && ArgsOk(args[1..]) && White(args[0].gap)
  {
    hide ArgText; hide At; hide SlotOk; hide White;
    var g, a, rest := args[0].gap, ArgText(args[0]), ArgsText(args[1..]);
    Grouped(g, a, rest, pad);
    AtParts(m, g, a + (rest + pad), i);
    AtParts(m, a, rest + pad, i + |g|);
  }

  lemma NoArgsText(pad: string)
    ensures ArgsText([]) + pad == pad
  {
  }

  /** The arguments of a call are read in order, up to the end of its tag. */
  lemma {:induction false} ArgsRead(m: string, i: nat, args: seq<SArg>, pad: string)
    requires ArgsOk(args) && White(pad) && At(m, ArgsText(args) + pad, i)
    requires var end := i + |ArgsText(args) + pad|; end < |m| && (m[end] == '>' || m[end] == '/')
    ensures ReadArgs(m, i) == Some((ArgsOf(args), i + |ArgsText(args) + pad|))
    ensures args != [] ==> SpaceEnd(m, i) == i + |args[0].gap|
    decreases |args|
  {
    hide ArgText; hide ArgOk; hide ReadArg; hide At; hide SpaceEnd; hide ArgsText; hide ArgsOk; hide ArgOf; hide White;
    if args == [] {
      NoArgsText(pad);
      SpaceRead(m, i, pad);
    } else {
      ArgsSplit(m, i, args, pad);
      var j := i + |args[0].gap|;
      ArgRead(m, j, args[0]);
      SpaceRead(m, i, args[0].gap);
      ArgsRead(m, j + |ArgText(args[0])|, args[1..], pad);
      assert [ArgOf(args[0])] + ArgsOf(args[1..]) == ArgsOf(args);
    }
  }

  /** The name of a call ends where its arguments or the end of its tag begin. */
  lemma CallNamed(m: string, n: nat, args: seq<SArg>, pad: string)
    requires ArgsOk(args) && (args != [] ==> args[0].gap != "") && White(pad) && At(m, ArgsText(args) + pad, n)
    requires var end := n + |ArgsText(args) + pad|; end < |m| && (m[end] == '>' || m[end] == '/')
    ensures n < |m| && EndsName(m[n])
  {
    hide ArgText; hide ArgsText; hide ArgsOk; hide ArgOk;
    if args == [] {
      NoArgsText(pad);
      if pad != "" {
        AtChar(m, pad, n, 0);
      }
    } else {
      ArgsSplit(m, n, args, pad);
      AtChar(m, args[0].gap, n, 0);
    }
  }

  lemma CallSplit(m: string, i: nat, p: SPiece)
    requires p.SCall? && At(m, PieceText(p), i)
    ensures var n := i + 1 + |p.name|; var j := n + |ArgsText(p.args) + p.pad|;
      && At(m, p.name, i + 1) && At(m, ArgsText(p.args) + p.pad, n) && At(m, CallEnd(p.name, p.inside), j)
      && j + |CallEnd(p.name, p.inside)| == i + |PieceText(p)| <= |m|
      && m[i] == '<' && j < |m| && (m[j] == '>' || m[j] == '/')
  {
    hide ArgsText; hide At;
    var a, b := ArgsText(p.args) + p.pad, CallEnd(p.name, p.inside);
    AtBound(m, PieceText(p), i);
    AtParts(m, "<", p.name + (a + b), i);
    AtParts(m, p.name, a + b, i + 1);
    AtParts(m, a, b, i + 1 + |p.name|);
    AtChar(m, "<", i, 0);
    AtChar(m, b, i + 1 + |p.name| + |a|, 0);
  }

  lemma CallRead(m: string, i: nat, p: SPiece)
    requires p.SCall? && PieceOk(p) && At(m, PieceText(p), i)
    ensures i < |m| && ReadCall(m, i) == Some((PieceOf(p), i + |PieceText(p)|))
    ensures m[i] == '<' && CallsAt(m, i)
  {
    hide ArgsText; hide PieceText; hide ArgsOk; hide ReadArgs; hide At; hide White; hide NameEnd; hide ArgsOf;
    hide SpaceEnd; hide CallEnd; hide ReadCall; hide IsUpper;
    CallSplit(m, i, p);
    var n := i + 1 + |p.name|;
    var j := n + |ArgsText(p.args) + p.pad|;
    CallNamed(m, n, p.args, p.pad);
    NameRead(m, i + 1, p.name);
    AtSlice(m, p.name, i + 1);
    AtChar(m, p.name, i + 1, 0);
    SpaceIs(m[i + 1]);
    ArgsRead(m, n, p.args, p.pad);
    CallEndRead(m, j, p.name, p.inside);
    CallIs(m, i);
  }

  /** Where a call ends whose tag ends at j, if it does. */
  function CallEndAt(m: string, j: nat, name: string): Option<nat>
    requires j < |m|
  {
    if m[j] == '/' then (if j + 1 < |m| && m[j + 1] == '>' then Some(j + 2) else None)
    else
      var k, close := SpaceEnd(m, j + 1), "</" + name + ">";
      if At(m, close, k) then Some(k + |close|) else None
  }

  lemma CallEndRead(m: string, j: nat, name: string, inside: Option<string>)
    requires At(m, CallEnd(name, inside), j) && (inside.Some? ==> White(inside.value))
    ensures j < |m| && CallEndAt(m, j, name) == Some(j + |CallEnd(name, inside)|)
  {
    hide At; hide SpaceEnd;
    AtChar(m, CallEnd(name, inside), j, 0);
    match inside
    case None => AtChar(m, CallEnd(name, inside), j, 1);
    case Some(w) =>
      var close := "</" + name + ">";
      AtParts(m, ">", w + close, j);
      AtParts(m, w, close, j + 1);
      AtChar(m, close, j + 1 + |w|, 0);
      SpaceRead(m, j + 1, w);
  }

  /** When a call is read, and as what. */
  lemma CallIs(m: string, i: nat)
    requires i < |m|
    ensures var n := NameEnd(m, i + 1); var r := ReadArgs(m, n);
      ReadCall(m, i)
      == if r.None? || CallEndAt(m, r.value.1, m[i + 1..n]).None? then None
         else Some((Call(m[i + 1..n], r.value.0), CallEndAt(m, r.value.1, m[i + 1..n]).value))
  {
    hide ReadArgs; hide SpaceEnd;
  }

  lemma OwnRead(m: string, i: nat, e: SElem)
    requires SElemOk(e) && !Capital(e.tag) && At(m, ElemText(e), i)
    ensures i < |m| && m[i] == '<' && !CallsAt(m, i)
    ensures ReadElem(m, i) == Some((ElemOf(e), i + |ElemText(e)|))
  {
    hide ReadElem; hide ElemOf; hide At;
    ElemRead(m, i, e);
    ChildBegins(m, i, e);
    SpaceIs(m[i + 1]);
  }

  lemma PieceRead(m: string, i: nat, p: SPiece)
    requires PieceOk(p) && At(m, PieceText(p), i)
    ensures i < |m| && !IsSpace(m[i]) && ReadPiece(m, i) == Some((PieceOf(p), i + |PieceText(p)|))
  {
    hide ReadElem; hide ReadCall; hide At; hide SElemOk; hide CallsAt; hide ElemText; hide ElemOf;
    match p
    case SOwn(_, e) => OwnRead(m, i, e);
    case SCall(_, _, _, _, _) => CallRead(m, i, p);
  }

  lemma {:induction false} PiecesRead(m: string, i: nat, ps: seq<SPiece>, tail: string)
    requires PiecesOk(ps) && White(tail) && At(m, PiecesText(ps) + tail, i) && i + |PiecesText(ps) + tail| == |m|
    ensures ReadPieces(m, i) == Some(PiecesOf(ps))
    decreases |ps|
  {
    hide PieceText; hide PieceOk; hide ReadPiece; hide At; hide SpaceEnd; hide PieceOf; hide White;
    if ps == [] {
      assert "" + tail == tail;
      SpaceRead(m, i, tail);
    } else {
      var g, a, rest := ps[0].gap, PieceText(ps[0]), PiecesText(ps[1..]);
      Grouped(g, a, rest, tail);
      AtParts(m, g, a + (rest + tail), i);
      AtParts(m, a, rest + tail, i + |g|);
      PieceRead(m, i + |g|, ps[0]);
      GapWhite(ps[0]);
      SpaceRead(m, i, g);
      PiecesRead(m, i + |g| + |a|, ps[1..], tail);
      assert [PieceOf(ps[0])] + PiecesOf(ps[1..]) == PiecesOf(ps);
    }
  }

  lemma GapWhite(p: SPiece)
    requires PieceOk(p)
    ensures White(p.gap)
  {
  }

  // ---- and nothing else ----

  lemma ArgValueFrom(m: string, gap: string, name: string, left: string, right: string, v: nat) returns (a: SArg)
    requires v <= |m| && ReadArgValue(m, name, v).Some?
    requires NameOk(name) && White(gap) && White(left) && White(right)
    ensures var (r, end) := ReadArgValue(m, name, v).value;
      && ArgOk(a) && a.gap == gap && a.name == name && a.left == left && a.right == right
      && ArgOf(a) == r && ArgValueText(a) == m[v..end]
  {
    hide ReadPlaceholder; hide SlotOk; hide SlotText; hide White; hide At; hide SlotPart;
    if v < |m| && m[v] == '"' {
      var q := Until(m, '"', v + 1);
      a := SLiteral(gap, name, left, right, m[v + 1..q]);
      assert QUOTE + m[v + 1..q] + QUOTE == m[v..q + 1];
    } else {
      assert "{{" == ['{', '{'];
      var s := HoleFrom(m, v);
      a := SForward(gap, name, left, right, s);
    }
  }

  lemma ArgFrom(m: string, j: nat, gap: string) returns (a: SArg)
    requires j < |m| && White(gap) && ReadArg(m, j).Some?
    ensures var (r, end) := ReadArg(m, j).value;
      ArgOk(a) && a.gap == gap && ArgOf(a) == r && ArgText(a) == m[j..end]
    ensures !EndsName(m[j])
  {
    hide ReadArgValue; hide White; hide ArgValueText; hide ArgOk; hide ArgOf;
    var n := NameEnd(m, j);
    NameFrom(m, j);
    SpaceIsWhite(m, n);
    var e := SpaceEnd(m, n);
    SpaceIsWhite(m, e + 1);
    var v := SpaceEnd(m, e + 1);
    a := ArgValueFrom(m, gap, m[j..n], m[n..e], m[e + 1..v], v);
    ValuedText(m, j, n, e, v, ReadArgValue(m, m[j..n], v).value.1);
  }

  lemma {:induction false} ArgsFrom(m: string, i: nat) returns (args: seq<SArg>, pad: string)
    requires i <= |m| && ReadArgs(m, i).Some?
    ensures var (r, end) := ReadArgs(m, i).value;
      ArgsOk(args) && White(pad) && ArgsOf(args) == r && ArgsText(args) + pad == m[i..end]
    ensures args != [] && EndsName(m[i]) ==> args[0].gap != ""
    decreases |m| - i
  {
    hide ReadArg; hide White; hide ArgOk; hide ArgOf; hide ArgText; hide SpaceEnd; hide EndsName;
    var j := SpaceEnd(m, i);
    SpaceIsWhite(m, i);
    if m[j] == '>' || m[j] == '/' {
      args, pad := [], m[i..j];
      NoArgsText(pad);
    } else {
      var a := ArgFrom(m, j, m[i..j]);
      var n := ReadArg(m, j).value.1;
      var rest;
      rest, pad := ArgsFrom(m, n);
      args := [a] + rest;
      assert args[1..] == rest;
      assert [ArgOf(a)] + ArgsOf(rest) == ArgsOf(args);
      TextJoins(m, i, j, n, ReadArgs(m, i).value.1, ArgsText(rest), pad);
    }
  }

  lemma CallFrom(m: string, i: nat, gap: string) returns (p: SPiece)
    requires i < |m| && m[i] == '<' && CallsAt(m, i) && ReadCall(m, i).Some? && White(gap)
    ensures var (r, end) := ReadCall(m, i).value;
      PieceOk(p) && p.gap == gap && PieceOf(p) == r && PieceText(p) == m[i..end]
  {
    hide ReadArgs; hide ArgsText; hide ArgsOk; hide ArgsOf; hide White; hide ReadCall; hide CallEndAt; hide NameEnd;
    hide CallEnd; hide NameOk; hide IsUpper;
    SpaceIs(m[i + 1]);
    var n := NameEnd(m, i + 1);
    NameFrom(m, i + 1);
    var name := m[i + 1..n];
    CallIs(m, i);
    var args, pad := ArgsFrom(m, n);
    var j := ReadArgs(m, n).value.1;
    var end := CallEndAt(m, j, name).value;
    var inside := CallEndFrom(m, j, name, end);
    p := SCall(gap, name, args, pad, inside);
    ElemJoins(m, i, n, j, end);
  }

  lemma CallEndFrom(m: string, j: nat, name: string, end: nat) returns (inside: Option<string>)
    requires j < |m| && (m[j] == '>' || m[j] == '/') && CallEndAt(m, j, name) == Some(end)
    ensures j <= end <= |m| && CallEnd(name, inside) == m[j..end] && (inside.Some? ==> White(inside.value))
  {
    hide White;
    if m[j] == '/' {
      inside := None;
      assert m[j..j + 2] == "/>";
    } else {
      SpaceIsWhite(m, j + 1);
      var k := SpaceEnd(m, j + 1);
      inside := Some(m[j + 1..k]);
      assert m[k..end] == "</" + name + ">";
      assert m[j + 1..k] + m[k..end] == m[j + 1..end];
      assert ">" + m[j + 1..end] == m[j..end];
    }
  }

  lemma PieceFrom(m: string, i: nat, gap: string) returns (p: SPiece)
    requires i < |m| && ReadPiece(m, i).Some? && White(gap)
    ensures var (r, end) := ReadPiece(m, i).value;
      PieceOk(p) && p.gap == gap && PieceOf(p) == r && PieceText(p) == m[i..end]
  {
    hide ReadElem; hide ReadCall; hide White; hide SElemOk; hide ElemText; hide ElemOf;
    if CallsAt(m, i) {
      p := CallFrom(m, i, gap);
    } else {
      var e := ElemFrom(m, i);
      p := SOwn(gap, e);
      ChildTag(m, i);
      TagOf(e);
      SpaceIs(m[i + 1]);
    }
  }

  lemma {:induction false} PiecesFrom(m: string, i: nat) returns (ps: seq<SPiece>, tail: string)
    requires i <= |m| && ReadPieces(m, i).Some?
    ensures PiecesOk(ps) && White(tail) && PiecesText(ps) + tail == m[i..] && PiecesOf(ps) == ReadPieces(m, i).value
    decreases |m| - i
  {
    hide ReadPiece; hide White; hide PieceOk; hide PieceOf; hide PieceText;
    var j := SpaceEnd(m, i);
    SpaceIsWhite(m, i);
    if j >= |m| {
      ps, tail := [], m[i..j];
      assert "" + tail == tail == m[i..];
    } else {
      var p := PieceFrom(m, j, m[i..j]);
      var n := ReadPiece(m, j).value.1;
      var rest;
      rest, tail := PiecesFrom(m, n);
      ps := [p] + rest;
      assert ps[1..] == rest;
      assert [PieceOf(p)] + PiecesOf(rest) == PiecesOf(ps);
      assert m[n..] == m[n..|m|] && m[i..] == m[i..|m|];
      TextJoins(m, i, j, n, |m|, PiecesText(rest), tail);
    }
  }

  // ---- exactly ----

  /** The whole markup may be written for these pieces. */
  ghost predicate WritesAll(m: string, ps: seq<Piece>) {
    exists ss, tail :: ss != [] && PiecesOk(ss) && White(tail) && PiecesText(ss) + tail == m && PiecesOf(ss) == ps
  }

  /** Component markup is read exactly if an author may write it, and as the pieces it was written for. */
  lemma ReadsAllExactly(m: string, ps: seq<Piece>)
    ensures ReadComponent(m) == Some(ps) <==> WritesAll(m, ps)
  {
    hide ReadPieces; hide PiecesOk; hide White; hide PiecesText; hide PiecesOf; hide At;
    if ReadComponent(m) == Some(ps) {
      var ss, tail := PiecesFrom(m, 0);
      assert m[0..] == m;
      NoPiecesOf(ss);
    }
    if WritesAll(m, ps) {
      var ss, tail :| ss != [] && PiecesOk(ss) && White(tail) && PiecesText(ss) + tail == m && PiecesOf(ss) == ps;
      AtStart(m, "");
      assert m + "" == m;
      PiecesRead(m, 0, ss, tail);
      NoPiecesOf(ss);
    }
  }

  lemma NoPiecesOf(ss: seq<SPiece>)
    ensures |PiecesOf(ss)| == |ss|
  {
  }
}
