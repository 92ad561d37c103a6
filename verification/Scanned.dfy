/**
 * What every scanned element satisfies: the shape the two lowerings rely on, and
 * a prop for every placeholder.
 */
module Scanned {
  import opened Markup
  import opened Trees
  import opened Scanner
  import opened TopLevel

  // ---- names and runs ----

  lemma {:induction false} SplitAvoids(run: string, k: nat, c: char)
    requires k <= |run| && c !in run && SplitParts(run, k).Some?
    ensures PartsAvoid(SplitParts(run, k).value, c)
    decreases |run| - k
  {
    var open := IndexOf(run, "{{", k);
    if open.Some? {
      var ph := ReadPlaceholder(run, open.value);
      SplitAvoids(run, ph.value.1, c);
    }
  }

  lemma TrimAvoids(run: string, c: char)
    requires c !in run
    ensures c !in TrimEdges(run)
  {
  }

  lemma NameScanned(m: string, i: nat)
    requires i <= |m| && NameEnd(m, i) > i
    ensures NameOk(m[i..NameEnd(m, i)])
  {
  }

  lemma AttrScanned(m: string, i: nat)
    requires i < |m| && m[i] != '>' && m[i] != '/' && ReadAttr(m, i).Some?
    ensures AttrOk(ReadAttr(m, i).value.0)
  {
    hide SplitParts; hide ReadPlaceholder; hide HasPlaceholder; hide NameOk;
    var n := NameEnd(m, i);
    NameScanned(m, i);
    var j := SpaceEnd(m, n);
    if m[j] == '=' {
      var v := SpaceEnd(m, j + 1);
      if v < |m| && m[v] == '"' {
        var value := m[v + 1..Until(m, '"', v + 1)];
        assert '"' !in value;
        if HasPlaceholder(value) {
          SplitAvoids(value, 0, '"');
        }
      }
    }
  }

  lemma {:induction false} AttrsScanned(m: string, i: nat)
    requires i <= |m| && ReadAttrs(m, i).Some?
    ensures forall k :: 0 <= k < |ReadAttrs(m, i).value.0| ==> AttrOk(ReadAttrs(m, i).value.0[k])
    decreases |m| - i
  {
    hide ReadAttr; hide AttrOk;
    var j := SpaceEnd(m, i);
    if m[j] != '>' && m[j] != '/' {
      AttrScanned(m, j);
      AttrsScanned(m, ReadAttr(m, j).value.1);
    }
  }

  lemma RunScanned(run: string)
    requires '<' !in run && ReadRun(run).Some?
    ensures var r := ReadRun(run).value; NodesOk(r) && (r.Cons? ==> r.tail.Nil? && !r.head.Child?)
  {
    TrimAvoids(run, '<');
    var r := TrimEdges(run);
    if HasPlaceholder(r) {
      SplitAvoids(r, 0, '<');
    }
  }

  // ---- elements ----

  /** Whatever the scanner accepts has the shape the lowerings rely on. */
  lemma {:induction false} ElemScanned(m: string, i: nat)
    requires i < |m| && ReadElem(m, i).Some?
    ensures ElemOk(ReadElem(m, i).value.0)
    decreases |m| - i, 0
  {
    hide ReadAttrs; hide ReadNodes; hide AttrOk; hide NodesOk;
    var n := NameEnd(m, i + 1);
    NameScanned(m, i + 1);
    AttrsScanned(m, n);
    var (attrs, j) := ReadAttrs(m, n).value;
    EmptyOk();
    if m[j] != '/' && m[i + 1..n] !in VOID_TAGS {
      NodesScanned(m, j + 1, m[i + 1..n]);
    }
  }

  lemma EmptyOk()
    ensures NodesOk(Nil) && Separate(Nil)
  {
  }

  lemma {:induction false} NodesScanned(m: string, i: nat, tag: string)
    requires i <= |m| && ReadNodes(m, i, tag).Some?
    ensures NodesOk(ReadNodes(m, i, tag).value.0)
    decreases |m| - i, 1
  {
    hide ReadElem; hide ReadRun; hide ElemOk;
    var lt := Until(m, '<', i);
    RunScanned(m[i..lt]);
    if m[lt + 1] != '/' {
      ElemScanned(m, lt);
      NodesScanned(m, ReadElem(m, lt).value.1, tag);
    }
  }

  // ---- props ----

  predicate NamesDistinct(props: seq<Prop>) {
    forall i, j :: 0 <= i < j < |props| ==> props[i].name != props[j].name
  }

  /** A list of props that went on from another: nothing was dropped or changed, and no name appears twice. */
  predicate GrewFrom(before: seq<Prop>, after: seq<Prop>) {
    before <= after && (NamesDistinct(before) ==> NamesDistinct(after))
  }

  predicate AllKnown(props: seq<Prop>, parts: seq<Part>) {
    forall i :: 0 <= i < |parts| && parts[i].Ident? ==> Known(props, parts[i].name)
  }

  function Declares(props: seq<Prop>): Test {
    (parts, inAttr) => AllKnown(props, parts)
  }

  lemma Grows(a: seq<Prop>, b: seq<Prop>, c: seq<Prop>)
    requires GrewFrom(a, b) && GrewFrom(b, c)
    ensures GrewFrom(a, c)
  {
  }

  lemma StillKnown(a: seq<Prop>, b: seq<Prop>, parts: seq<Part>)
    requires a <= b && AllKnown(a, parts)
    ensures AllKnown(b, parts)
  {
    forall i | 0 <= i < |parts| && parts[i].Ident?
      ensures Known(b, parts[i].name)
    {
      var k :| 0 <= k < |a| && a[k].name == parts[i].name;
      assert b[k] == a[k];
    }
  }

  lemma {:induction false} PartsRegister(props: seq<Prop>, parts: seq<Part>)
    ensures GrewFrom(props, RegisterAll(props, parts)) && AllKnown(RegisterAll(props, parts), parts)
    decreases |parts|
  {
    if parts != [] {
      var next, all := Register(props, parts[0]), RegisterAll(props, parts);
      PartsRegister(next, parts[1..]);
      assert GrewFrom(props, next);
      Grows(props, next, all);
      if parts[0].Ident? {
        assert Known(props, parts[0].name) || next[|props|].name == parts[0].name;
        assert AllKnown(next, parts[..1]);
        StillKnown(next, all, parts[..1]);
        assert parts[..1][0] == parts[0];
      }
      assert forall i :: 0 < i < |parts| ==> parts[i] == parts[1..][i - 1];
    }
  }

  lemma {:induction false} AttrsRegister(props: seq<Prop>, attrs: seq<Attr>)
    ensures GrewFrom(props, RegisterAttrs(props, attrs)) && AttrsEach(attrs, Declares(RegisterAttrs(props, attrs)))
    decreases |attrs|
  {
    hide GrewFrom; hide RegisterAll; hide AllKnown;
    if attrs == [] {
      SameGrew(props);
    } else {
      var next, all := RegisterAttr(props, attrs[0]), RegisterAttrs(props, attrs);
      AttrsRegister(next, attrs[1..]);
      if attrs[0].Dynamic? {
        PartsRegister(props, attrs[0].parts);
        GrewIsPrefix(next, all);
        StillKnown(next, all, attrs[0].parts);
      } else {
        SameGrew(props);
      }
      Grows(props, next, all);
      assert forall i :: 0 < i < |attrs| ==> attrs[i] == attrs[1..][i - 1];
    }
  }

  lemma SameGrew(props: seq<Prop>)
    ensures GrewFrom(props, props)
  {
  }

  lemma GrewIsPrefix(a: seq<Prop>, b: seq<Prop>)
    requires GrewFrom(a, b)
    ensures a <= b
  {
  }

  /** Scanning an element declares every prop its placeholders name, each once, and forgets none. */
  lemma {:induction false} ElemRegisters(props: seq<Prop>, e: Elem)
    ensures GrewFrom(props, RegisterElem(props, e)) && Each(e, Declares(RegisterElem(props, e)))
    decreases e, 0
  {
    hide GrewFrom; hide RegisterAttrs; hide RegisterNodes; hide AttrsEach; hide NodesEach; hide Declares;
    var mid, all := RegisterAttrs(props, e.attrs), RegisterElem(props, e);
    AttrsRegister(props, e.attrs);
    NodesRegister(mid, e.nodes);
    Grows(props, mid, all);
    AttrsStillDeclared(e.attrs, mid, all);
  }

  lemma AttrsStillDeclared(attrs: seq<Attr>, a: seq<Prop>, b: seq<Prop>)
    requires GrewFrom(a, b) && AttrsEach(attrs, Declares(a))
    ensures AttrsEach(attrs, Declares(b))
  {
    forall i | 0 <= i < |attrs| && attrs[i].Dynamic?
      ensures Declares(b)(attrs[i].parts, true)
    {
      assert Declares(a)(attrs[i].parts, true);
      StillKnown(a, b, attrs[i].parts);
    }
  }

  lemma ElemStillDeclared(e: Elem, a: seq<Prop>, b: seq<Prop>)
    requires GrewFrom(a, b) && Each(e, Declares(a))
    ensures Each(e, Declares(b))
  {
    forall parts, inAttr | Declares(a)(parts, inAttr)
      ensures Declares(b)(parts, inAttr)
    {
      StillKnown(a, b, parts);
    }
    EachWeaken(e, Declares(a), Declares(b));
  }

  lemma {:induction false} NodesRegister(props: seq<Prop>, ns: Nodes)
    ensures GrewFrom(props, RegisterNodes(props, ns)) && NodesEach(ns, Declares(RegisterNodes(props, ns)))
    decreases ns, 1
  {
    hide GrewFrom; hide RegisterElem; hide RegisterAll; hide Each; hide AllKnown;
    var all := RegisterNodes(props, ns);
    match ns
    case Nil => SameGrew(props);
    case Cons(Text(_), rest) => NodesRegister(props, rest);
    case Cons(Dyn(parts), rest) =>
      var mid := RegisterAll(props, parts);
      PartsRegister(props, parts);
      NodesRegister(mid, rest);
      Grows(props, mid, all);
      GrewIsPrefix(mid, all);
      StillKnown(mid, all, parts);
    case Cons(Child(e), rest) =>
      var mid := RegisterElem(props, e);
      ElemRegisters(props, e);
      NodesRegister(mid, rest);
      Grows(props, mid, all);
      ElemStillDeclared(e, mid, all);
  }

  /** The props a component declares: one for every name its placeholders use, none twice. */
  lemma DeclaresProps(e: Elem)
    ensures NamesDistinct(RegisterElem([], e)) && Each(e, Declares(RegisterElem([], e)))
  {
    ElemRegisters([], e);
  }

  // ---- whole components ----

  /** Every name a piece uses is a declared prop: at its sites, or handed on as an argument. */
  predicate PieceDeclared(props: seq<Prop>, p: Piece) {
    match p
    case Own(e) => Each(e, Declares(props))
    case Call(_, args) => ArgsDeclared(props, args)
  }

  predicate ArgsDeclared(props: seq<Prop>, args: seq<Arg>) {
    forall i :: 0 <= i < |args| && args[i].Forward? && args[i].part.Ident? ==> Known(props, args[i].part.name)
  }

  lemma KnownOn(a: seq<Prop>, b: seq<Prop>, name: string)
    requires GrewFrom(a, b) && Known(a, name)
    ensures Known(b, name)
  {
    var k :| 0 <= k < |a| && a[k].name == name;
    assert b[k] == a[k];
  }

  lemma RegisterKnows(props: seq<Prop>, p: Part)
    ensures GrewFrom(props, Register(props, p)) && (p.Ident? ==> Known(Register(props, p), p.name))
  {
    var next := Register(props, p);
    if p.Ident? && !Known(props, p.name) {
      assert next[|props|].name == p.name;
    }
  }

  lemma {:induction false} ArgsRegister(props: seq<Prop>, args: seq<Arg>)
    ensures GrewFrom(props, RegisterArgs(props, args)) && ArgsDeclared(RegisterArgs(props, args), args)
    decreases |args|
  {
    hide GrewFrom; hide Register; hide Known;
    if args == [] {
      SameGrew(props);
    } else {
      var next, all := RegisterArg(props, args[0]), RegisterArgs(props, args);
      ArgsRegister(next, args[1..]);
      if args[0].Forward? {
        RegisterKnows(props, args[0].part);
        if args[0].part.Ident? {
          KnownOn(next, all, args[0].part.name);
        }
      } else {
        SameGrew(props);
      }
      Grows(props, next, all);
      assert forall i :: 0 < i < |args| ==> args[i] == args[1..][i - 1];
    }
  }

  lemma PieceRegisters(props: seq<Prop>, p: Piece)
    ensures GrewFrom(props, RegisterPiece(props, p)) && PieceDeclared(RegisterPiece(props, p), p)
  {
    hide GrewFrom; hide Each; hide ArgsDeclared;
    match p
    case Own(e) => ElemRegisters(props, e);
    case Call(_, args) => ArgsRegister(props, args);
  }

  lemma PieceStillDeclared(a: seq<Prop>, b: seq<Prop>, p: Piece)
    requires GrewFrom(a, b) && PieceDeclared(a, p)
    ensures PieceDeclared(b, p)
  {
    hide GrewFrom; hide Known; hide Each;
    match p
    case Own(e) => ElemStillDeclared(e, a, b);
    case Call(_, args) =>
      forall i | 0 <= i < |args| && args[i].Forward? && args[i].part.Ident?
        ensures Known(b, args[i].part.name)
      {
        KnownOn(a, b, args[i].part.name);
      }
  }

  lemma {:induction false} PiecesRegister(props: seq<Prop>, ps: seq<Piece>)
    ensures GrewFrom(props, RegisterPieces(props, ps))
    ensures forall k :: 0 <= k < |ps| ==> PieceDeclared(RegisterPieces(props, ps), ps[k])
    decreases |ps|
  {
    hide GrewFrom; hide RegisterPiece; hide PieceDeclared;
    if ps == [] {
      SameGrew(props);
    } else {
      var next, all := RegisterPiece(props, ps[0]), RegisterPieces(props, ps);
      PiecesRegister(next, ps[1..]);
      PieceRegisters(props, ps[0]);
      PieceStillDeclared(next, all, ps[0]);
      Grows(props, next, all);
      assert forall k :: 0 < k < |ps| ==> ps[k] == ps[1..][k - 1];
    }
  }

  /** The props of a whole component: one for every name its elements and calls use, none twice. */
  lemma ComponentDeclares(ps: seq<Piece>)
    ensures NamesDistinct(RegisterPieces([], ps))
    ensures forall k :: 0 <= k < |ps| ==> PieceDeclared(RegisterPieces([], ps), ps[k])
  {
    hide PieceDeclared;
    PiecesRegister([], ps);
  }
}
