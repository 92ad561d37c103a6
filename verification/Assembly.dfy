/**
 * Whole components: elements and calls of other components in document order. The
 * native lowering concatenates what they render, the browser lowering appends what
 * they paint.
 */
module Assembly {
  import opened Wrappers
  import opened Markup
  import opened Lowering
  import opened Weaving
  import opened Html
  import opened Trees
  import opened Painting
  import opened Agreement
  import opened Components
  import opened TopLevel
  import opened Scanned

  /** A declaration with every call bound to the declaration it names; no component contains itself. */
  datatype Blocks = End | Then(head: Block, tail: Blocks)

  datatype Block = Element(elem: Elem) | Uses(args: seq<Arg>, body: Blocks)

  function Bind(lib: map<string, Blocks>, ps: seq<Piece>): Option<Blocks>
    decreases |ps|
  {
    if ps == [] then Some(End)
    else
      var rest := Bind(lib, ps[1..]);
      if rest.None? then None
      else
        match ps[0]
        case Own(e) => Some(Then(Element(e), rest.value))
        case Call(name, args) => if name in lib then Some(Then(Uses(args, lib[name]), rest.value)) else None
  }

  /** The props a call passes; a prop that is not in scope is an error. */
  function ArgProps(args: seq<Arg>, props: Props): Option<Props>
    decreases |args|
  {
    if args == [] then Some(map[])
    else
      var last := args[|args| - 1];
      var rest := ArgProps(args[..|args| - 1], props);
      if rest.None? then None
      else if last.Literal? then Some(rest.value[last.name := Str(last.text)])
      else if last.part.Ident? && last.part.name in props then Some(rest.value[last.name := props[last.part.name]])
      else None
  }

  // ---- the two lowerings of a whole component ----

  function RenderBlocks(bs: Blocks, props: Props): Option<string> {
    match bs
    case End => Some("")
    case Then(Element(e), rest) => Joined(RenderedBytes(e, props), RenderBlocks(rest, props))
    case Then(Uses(args, body), rest) =>
      var inner := ArgProps(args, props);
      if inner.None? then None else Joined(RenderBlocks(body, inner.value), RenderBlocks(rest, props))
  }

  function Joined<T>(a: Option<seq<T>>, b: Option<seq<T>>): Option<seq<T>> {
    if a.None? || b.None? then None else Some(a.value + b.value)
  }

  function One(d: Option<Dom>): Option<seq<Dom>> {
    if d.None? then None else Some([d.value])
  }

  /** The elements appended to the parent, in order. */
  function PaintBlocks(bs: Blocks, props: Props): Option<seq<Dom>> {
    match bs
    case End => Some([])
    case Then(Element(e), rest) => Joined(One(PaintedTree(e, props)), PaintBlocks(rest, props))
    case Then(Uses(args, body), rest) =>
      var inner := ArgProps(args, props);
      if inner.None? then None else Joined(PaintBlocks(body, inner.value), PaintBlocks(rest, props))
  }

  /** The elements a browser shows for a text from p on. */
  function ParseAll(s: string, p: nat): Option<seq<Dom>>
    requires p <= |s|
    decreases |s| - p
  {
    if p == |s| then Some([])
    else
      var d := ParseElem(s, p);
      if d.None? then None else Joined(Some([d.value.0]), ParseAll(s, d.value.1))
  }

  // ---- what a component must satisfy ----

  /** Every element has HTML tag names, no raw markup, and props of the types it was scanned with. */
  ghost predicate Ready(bs: Blocks, props: Props) {
    match bs
    case End => true
    case Then(Element(e), rest) =>
      ElemOk(e) && Lettered(e) && Each(e, Unraw()) && Each(e, TypedIn(props)) && Ready(rest, props)
    case Then(Uses(args, body), rest) =>
      ArgProps(args, props).Some? && Ready(body, ArgProps(args, props).value) && Ready(rest, props)
  }

  ghost predicate AllAgree(bs: Blocks, props: Props)
    requires Ready(bs, props)
  {
    match bs
    case End => true
    case Then(Element(e), rest) => Agrees(e, props) && AllAgree(rest, props)
    case Then(Uses(args, body), rest) => AllAgree(body, ArgProps(args, props).value) && AllAgree(rest, props)
  }

  /** The trees the parts are shown as. */
  ghost function ShownBlocks(bs: Blocks, props: Props): seq<Dom>
    requires Ready(bs, props)
  {
    match bs
    case End => []
    case Then(Element(e), rest) => [Tree(e, Shown(props))] + ShownBlocks(rest, props)
    case Then(Uses(args, body), rest) => ShownBlocks(body, ArgProps(args, props).value) + ShownBlocks(rest, props)
  }

  // ---- one element ----

  lemma BytesParse(e: Elem, props: Props, s: string, p: nat)
    requires ElemOk(e) && Lettered(e) && Each(e, Unraw()) && Each(e, TypedIn(props))
    ensures RenderedBytes(e, props).Some? && RenderedBytes(e, props).value != ""
    ensures At(s, RenderedBytes(e, props).value, p) ==>
      ParseElem(s, p) == Some((Tree(e, Shown(props)), p + |RenderedBytes(e, props).value|))
  {
    hide ParseElem; hide Tree; hide ElemHtml; hide ElemOps; hide ElemText; hide Each; hide ElemOk; hide Lettered;
    hide Merge;
    hide RunWrites; hide OpsTyped; hide At;
    SitesAreOps(e, [], 0, TypedIn(props));
    PassTyped(ElemOps(e, [], 0), props);
    RenderIsText(e, props);
    WrittenStays(e, props);
    TextNotEmpty(e, Written(props));
    if At(s, RenderedBytes(e, props).value, p) {
      ElemParses(s, e, Written(props), p);
    }
  }

  lemma TextNotEmpty(e: Elem, fill: Fill)
    ensures ElemText(e, fill) != ""
  {
    assert ElemText(e, fill)[0] == '<';
  }

  lemma TreePainted(e: Elem, props: Props)
    requires ElemOk(e) && Lettered(e) && Each(e, Unraw()) && Each(e, TypedIn(props))
    ensures PaintedTree(e, props).Some?
    ensures PaintedTree(e, props).value == Tree(e, Shown(props)) <==> Agrees(e, props)
  {
    hide Parse; hide Tree; hide PaintTree; hide ElemHtml; hide ElemOps; hide Each; hide ElemOk; hide Lettered;
    hide RunSteps;
    hide PaintSteps; hide Agrees; hide Shown;
    TemplateParses(e);
    TypedIsAble(e, "", props);
    StepsPaint(e, Blank(), "", props);
    TreesAgreeIff(e, props);
  }

  // ---- whole components ----

  lemma {:induction false} BlocksParse(bs: Blocks, props: Props, s: string, p: nat)
    requires Ready(bs, props)
    ensures RenderBlocks(bs, props).Some?
    ensures var t := RenderBlocks(bs, props).value;
      At(s, t, p) ==> p + |t| <= |s| && ParseAll(s, p) == Joined(Some(ShownBlocks(bs, props)), ParseAll(s, p + |t|))
    decreases bs
  {
    hide ParseElem; hide ParseAll; hide Tree; hide RenderedBytes; hide ElemOk; hide Lettered; hide Each; hide At;
    match bs
    case End =>
      NothingMore(s, p);
    case Then(Element(e), rest) =>
      BytesParse(e, props, s, p);
      var a := RenderedBytes(e, props).value;
      BlocksParse(rest, props, s, p + |a|);
      var b := RenderBlocks(rest, props).value;
      if At(s, a + b, p) {
        Splits(s, a, b, p);
        FirstParsed(s, p, Tree(e, Shown(props)), p + |a|);
        PartsParsed(s, p, a, b, [Tree(e, Shown(props))], ShownBlocks(rest, props));
      }
    case Then(Uses(args, body), rest) =>
      var inner := ArgProps(args, props).value;
      BlocksParse(body, inner, s, p);
      var a := RenderBlocks(body, inner).value;
      BlocksParse(rest, props, s, p + |a|);
      var b := RenderBlocks(rest, props).value;
      if At(s, a + b, p) {
        Splits(s, a, b, p);
        PartsParsed(s, p, a, b, ShownBlocks(body, inner), ShownBlocks(rest, props));
      }
  }

  lemma FirstParsed(s: string, p: nat, d: Dom, q: nat)
    requires p < q <= |s| && ParseElem(s, p) == Some((d, q))
    ensures ParseAll(s, p) == Joined(Some([d]), ParseAll(s, q))
  {
    hide ParseElem;
  }

  lemma PartsParsed(s: string, p: nat, a: string, b: string, ds: seq<Dom>, es: seq<Dom>)
    requires p + |a| + |b| <= |s|
    requires ParseAll(s, p) == Joined(Some(ds), ParseAll(s, p + |a|))
    requires ParseAll(s, p + |a|) == Joined(Some(es), ParseAll(s, p + |a| + |b|))
    ensures ParseAll(s, p) == Joined(Some(ds + es), ParseAll(s, p + |a + b|))
  {
    hide ParseAll;
    JoinedAssoc(ds, es, ParseAll(s, p + |a + b|));
  }

  lemma NothingMore(s: string, p: nat)
    ensures At(s, "", p) ==> p <= |s| && ParseAll(s, p) == Joined(Some([]), ParseAll(s, p + 0))
  {
    if At(s, "", p) && ParseAll(s, p).Some? {
      assert [] + ParseAll(s, p).value == ParseAll(s, p).value;
    }
  }

  lemma JoinedAssoc<T>(a: seq<T>, b: seq<T>, c: Option<seq<T>>)
    ensures Joined(Some(a), Joined(Some(b), c)) == Joined(Some(a + b), c)
  {
    if c.Some? {
      assert a + (b + c.value) == a + b + c.value;
    }
  }

  lemma {:induction false} BlocksAgreeIff(bs: Blocks, props: Props)
    requires Ready(bs, props)
    ensures PaintBlocks(bs, props).Some? && |PaintBlocks(bs, props).value| == |ShownBlocks(bs, props)|
    ensures PaintBlocks(bs, props).value == ShownBlocks(bs, props) <==> AllAgree(bs, props)
    decreases bs
  {
    hide Tree; hide PaintedTree; hide ElemOk; hide Lettered; hide Each; hide Agrees; hide Shown;
    match bs
    case End =>
    case Then(Element(e), rest) =>
      TreePainted(e, props);
      BlocksAgreeIff(rest, props);
      SameParts([PaintedTree(e, props).value], PaintBlocks(rest, props).value, [Tree(e, Shown(props))],
        ShownBlocks(rest, props));
    case Then(Uses(args, body), rest) =>
      var inner := ArgProps(args, props).value;
      BlocksAgreeIff(body, inner);
      BlocksAgreeIff(rest, props);
      SameParts(PaintBlocks(body, inner).value, PaintBlocks(rest, props).value, ShownBlocks(body, inner),
        ShownBlocks(rest, props));
  }

  lemma SameParts<T>(a: seq<T>, b: seq<T>, c: seq<T>, d: seq<T>)
    requires |a| == |c|
    ensures a + b == c + d <==> a == c && b == d
  {
    if a + b == c + d {
      assert a == (a + b)[..|a|] && b == (a + b)[|a|..];
      assert c == (c + d)[..|a|] && d == (c + d)[|a|..];
    }
  }

  /**
   * Whole components agree: what a browser shows for everything a component and the
   * components it calls render is what they paint, if and only if every element
   * reached agrees under the props it is reached with.
   */
  lemma ComponentsAgree(bs: Blocks, props: Props)
    requires Ready(bs, props)
    ensures RenderBlocks(bs, props).Some? && PaintBlocks(bs, props).Some?
    ensures var shown := ParseAll(RenderBlocks(bs, props).value, 0);
      shown.Some? && (shown == PaintBlocks(bs, props) <==> AllAgree(bs, props))
  {
    hide RenderBlocks; hide PaintBlocks; hide ShownBlocks; hide AllAgree; hide Ready; hide ParseElem;
    BlocksAgreeIff(bs, props);
    BlocksParse(bs, props, "", 0);
    var s := RenderBlocks(bs, props).value;
    BlocksParse(bs, props, s, 0);
    assert s[0..0 + |s|] == s;
    assert ParseAll(s, |s|) == Some([]);
    assert ShownBlocks(bs, props) + [] == ShownBlocks(bs, props);
  }

  // ---- scanned components ----

  /** Every element of scanned markup has the shape the lowerings rely on. */
  lemma {:induction false} PiecesScanned(m: string, i: nat)
    requires i <= |m| && ReadPieces(m, i).Some?
    ensures forall k :: 0 <= k < |ReadPieces(m, i).value| && ReadPieces(m, i).value[k].Own? ==>
      ElemOk(ReadPieces(m, i).value[k].elem)
    decreases |m| - i
  {
    hide ReadCall; hide ReadElem; hide ElemOk;
    PiecesRound(m, i);
    var j := SpaceEnd(m, i);
    if j < |m| {
      if !CallsAt(m, j) {
        ElemScanned(m, j);
      }
      var next := ReadPiece(m, j).value.1;
      PiecesScanned(m, next);
      var ps, rest := ReadPieces(m, i).value, ReadPieces(m, next).value;
      assert ps == [ReadPiece(m, j).value.0] + rest;
      assert forall k :: 0 < k < |ps| ==> ps[k] == rest[k - 1];
      assert ps[0].Own? ==> ElemOk(ps[0].elem);
    }
  }

  /** Binding keeps the pieces in order: an element stays, a call gets the body of its declaration. */
  lemma {:induction false} BoundElements(lib: map<string, Blocks>, ps: seq<Piece>)
    requires Bind(lib, ps).Some?
    ensures |BlockList(Bind(lib, ps).value)| == |ps|
    ensures forall k :: 0 <= k < |ps| ==> BoundTo(lib, ps[k], BlockList(Bind(lib, ps).value)[k])
    decreases |ps|
  {
    if ps != [] {
      BoundElements(lib, ps[1..]);
      var bs := Bind(lib, ps).value;
      assert BlockList(bs) == [bs.head] + BlockList(bs.tail);
      assert forall k :: 0 < k < |ps| ==> ps[k] == ps[1..][k - 1];
    }
  }

  function BlockList(bs: Blocks): seq<Block> {
    if bs.End? then [] else [bs.head] + BlockList(bs.tail)
  }

  predicate BoundTo(lib: map<string, Blocks>, p: Piece, b: Block) {
    match p
    case Own(e) => b == Element(e)
    case Call(name, args) => name in lib && b == Uses(args, lib[name])
  }

  // ---- from markup to what is shown ----

  /** Every element reached, through calls too, has the shape the lowerings rely on. */
  ghost predicate AllOk(bs: Blocks) {
    match bs
    case End => true
    case Then(Element(e), rest) => ElemOk(e) && AllOk(rest)
    case Then(Uses(_, body), rest) => AllOk(body) && AllOk(rest)
  }

  /** What is asked of the author and the caller: HTML tag names, no raw markup, props of the scanned types. */
  ghost predicate Suits(bs: Blocks, props: Props) {
    match bs
    case End => true
    case Then(Element(e), rest) => Lettered(e) && Each(e, Unraw()) && Each(e, TypedIn(props)) && Suits(rest, props)
    case Then(Uses(args, body), rest) =>
      ArgProps(args, props).Some? && Suits(body, ArgProps(args, props).value) && Suits(rest, props)
  }

  lemma {:induction false} SuitsIsReady(bs: Blocks, props: Props)
    requires AllOk(bs) && Suits(bs, props)
    ensures Ready(bs, props)
    decreases bs
  {
    hide ElemOk; hide Lettered; hide Each;
    match bs
    case End =>
    case Then(Element(e), rest) => SuitsIsReady(rest, props);
    case Then(Uses(args, body), rest) =>
      SuitsIsReady(body, ArgProps(args, props).value);
      SuitsIsReady(rest, props);
  }

  lemma {:induction false} BoundOk(lib: map<string, Blocks>, ps: seq<Piece>)
    requires Bind(lib, ps).Some? && forall name :: name in lib ==> AllOk(lib[name])
    requires forall k :: 0 <= k < |ps| && ps[k].Own? ==> ElemOk(ps[k].elem)
    ensures AllOk(Bind(lib, ps).value)
    decreases |ps|
  {
    hide ElemOk;
    if ps != [] {
      assert forall k :: 0 <= k < |ps[1..]| ==> ps[1..][k] == ps[k + 1];
      BoundOk(lib, ps[1..]);
    }
  }

  /** A declaration: a name and its markup. */
  datatype Decl = Decl(name: string, markup: string)

  /** The components declared, each bound to those declared before it; None when one of them is refused. */
  function Library(decls: seq<Decl>): Option<map<string, Blocks>>
    decreases |decls|
  {
    if decls == [] then Some(map[])
    else
      var d := decls[|decls| - 1];
      var lib := Library(decls[..|decls| - 1]);
      var ps := ReadComponent(d.markup);
      if lib.None? || ps.None? then None
      else
        var bs := Bind(lib.value, ps.value);
        if bs.None? then None else Some(lib.value[d.name := bs.value])
  }

  /** Scanning alone makes every element reached well formed. */
  lemma {:induction false} LibraryOk(decls: seq<Decl>)
    requires Library(decls).Some?
    ensures forall name :: name in Library(decls).value ==> AllOk(Library(decls).value[name])
    decreases |decls|
  {
    hide ElemOk; hide AllOk; hide Bind; hide ReadPieces;
    if decls != [] {
      var d, before := decls[|decls| - 1], decls[..|decls| - 1];
      LibraryOk(before);
      PiecesScanned(d.markup, 0);
      BoundOk(Library(before).value, ReadComponent(d.markup).value);
    }
  }

  /**
   * From the declarations of a program: any component they declare shows what it
   * paints if and only if every element it reaches agrees under the props it is
   * reached with.
   */
  lemma ProgramAgrees(decls: seq<Decl>, name: string, props: Props)
    requires Library(decls).Some? && name in Library(decls).value && Suits(Library(decls).value[name], props)
    ensures var bs := Library(decls).value[name];
      Ready(bs, props) && RenderBlocks(bs, props).Some? && PaintBlocks(bs, props).Some?
      && ParseAll(RenderBlocks(bs, props).value, 0).Some?
      && (ParseAll(RenderBlocks(bs, props).value, 0) == PaintBlocks(bs, props) <==> AllAgree(bs, props))
  {
    hide RenderBlocks; hide PaintBlocks; hide AllAgree; hide Ready; hide Suits; hide AllOk; hide Library; hide ParseAll;
    LibraryOk(decls);
    var bs := Library(decls).value[name];
    SuitsIsReady(bs, props);
    ComponentsAgree(bs, props);
  }
}
