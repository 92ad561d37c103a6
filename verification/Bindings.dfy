/** From what is kept of scanned components to what they render and paint: calls, their props, and declarations. */
module Bindings {
  import opened Wrappers
  import opened Markup
  import opened Lowering
  import opened Weaving
  import opened Html
  import opened Painting
  import opened TopLevel
  import opened Assembly

  // ---- what is kept is what is lowered ----

  /** renderBody over the kept pieces: each segment by its HTML and operations, each call by its own procedure. */
  ghost function RenderKept(ns: seq<Kept>, lib: map<string, Blocks>, props: Props): Option<string> {
    if ns == [] then Some("")
    else
      var rest := RenderKept(ns[1..], lib, props);
      match ns[0]
      case Segment(html, ops) =>
        if Ascending(ops, 0, |html|) then Joined(RunWrites(Merge(html, ops, 0), props), rest) else None
      case Calling(name, args) =>
        if name in lib && ArgProps(args, props).Some?
        then Joined(RenderBlocks(lib[name], ArgProps(args, props).value), rest) else None
  }

  /** The paint procedure: each segment is a template cloned, assigned to and appended. */
  ghost function PaintKept(ns: seq<Kept>, lib: map<string, Blocks>, props: Props): Option<seq<Dom>> {
    if ns == [] then Some([])
    else
      var rest := PaintKept(ns[1..], lib, props);
      match ns[0]
      case Segment(html, ops) =>
        var template := Parse(html);
        if template.None? then None else Joined(One(RunSteps(template.value, PaintSteps(ops, ""), props)), rest)
      case Calling(name, args) =>
        if name in lib && ArgProps(args, props).Some?
        then Joined(PaintBlocks(lib[name], ArgProps(args, props).value), rest) else None
  }

  /** The segments and calls kept of a component render and paint what the component bound to its declarations does. */
  lemma {:induction false} KeptLowers(lib: map<string, Blocks>, ps: seq<Piece>, props: Props)
    requires Bind(lib, ps).Some?
    ensures RenderKept(AllKept(ps), lib, props) == RenderBlocks(Bind(lib, ps).value, props)
    ensures PaintKept(AllKept(ps), lib, props) == PaintBlocks(Bind(lib, ps).value, props)
    decreases |ps|
  {
    hide RunWrites; hide Merge; hide Parse; hide RunSteps; hide PaintSteps; hide ElemHtml; hide ElemOps; hide ArgProps;
    if ps != [] {
      KeptLowers(lib, ps[1..], props);
      assert AllKept(ps)[1..] == AllKept(ps[1..]);
      match ps[0] {
        case Own(e) =>
          ElemAscends(e, [], 0);
          assert Ascending(ElemOps(e, [], 0), 0, |ElemHtml(e)|);
        case Call(_, _) =>
      }
    }
  }

  // ---- what a call passes ----

  /** The last argument of a name, or the number of arguments. */
  function LastArg(args: seq<Arg>, name: string): (r: nat)
    ensures r <= |args|
    ensures r < |args| ==> args[r].name == name && forall j :: r < j < |args| ==> args[j].name != name
    ensures r == |args| ==> forall j :: 0 <= j < |args| ==> args[j].name != name
    decreases |args|
  {
    if args == [] then 0
    else if args[|args| - 1].name == name then |args| - 1
    else
      var front := args[..|args| - 1];
      assert forall j :: 0 <= j < |front| ==> args[j] == front[j];
      var r := LastArg(front, name);
      if r == |front| then |args| else r
  }

  /** A forwarded prop is one of the caller's. */
  predicate Passable(a: Arg, props: Props) {
    a.Literal? || (a.part.Ident? && a.part.name in props)
  }

  /**
   * The props a component is called with: a literal is a text, a forwarded prop has the
   * caller's value, the last argument of a name counts; and a call that forwards what
   * its caller does not have is no program.
   */
  lemma {:induction false} CallPasses(args: seq<Arg>, props: Props)
    ensures ArgProps(args, props).Some? <==> forall k :: 0 <= k < |args| ==> Passable(args[k], props)
    ensures ArgProps(args, props).Some? ==>
      var inner := ArgProps(args, props).value;
      forall name ::
        && (name in inner <==> LastArg(args, name) < |args|)
        && (name in inner ==>
              var a := args[LastArg(args, name)];
              && (a.Literal? ==> inner[name] == Str(a.text))
              && (a.Forward? ==> a.part.Ident? && a.part.name in props && inner[name] == props[a.part.name]))
    decreases |args|
  {
    if args != [] {
      var front := args[..|args| - 1];
      CallPasses(front, props);
      assert forall k :: 0 <= k < |front| ==> args[k] == front[k];
      assert Passable(args[|args| - 1], props)
        <==> args[|args| - 1].Literal? || (args[|args| - 1].part.Ident? && args[|args| - 1].part.name in props);
    }
  }

  // ---- declarations ----

  lemma {:induction false} LibraryGrows(decls: seq<Decl>, k: nat)
    requires Library(decls).Some? && k <= |decls|
    ensures Library(decls[..k]).Some?
    decreases |decls| - k
  {
    hide Bind; hide ReadComponent;
    if k < |decls| {
      LibraryGrows(decls, k + 1);
      assert decls[..k + 1][..k] == decls[..k];
    } else {
      assert decls[..k] == decls;
    }
  }

  /**
   * A declaration that no later one of its name replaces stands for what its markup
   * reads as, its calls bound to the declarations made before it; and nothing else is declared.
   */
  lemma {:induction false} LibraryHas(decls: seq<Decl>, k: nat)
    requires Library(decls).Some? && k < |decls|
    requires forall j :: k < j < |decls| ==> decls[j].name != decls[k].name
    ensures Library(decls[..k]).Some? && ReadComponent(decls[k].markup).Some?
    ensures var bound := Bind(Library(decls[..k]).value, ReadComponent(decls[k].markup).value);
      bound.Some? && decls[k].name in Library(decls).value && Library(decls).value[decls[k].name] == bound.value
    decreases |decls|
  {
    hide Bind; hide ReadComponent;
    var front := decls[..|decls| - 1];
    if k < |front| {
      assert front[..k] == decls[..k];
      LibraryHas(front, k);
    }
  }

  lemma {:induction false} LibraryOnly(decls: seq<Decl>, name: string)
    requires Library(decls).Some? && name in Library(decls).value
    ensures exists k :: 0 <= k < |decls| && decls[k].name == name
    decreases |decls|
  {
    hide Bind; hide ReadComponent;
    var last, front := decls[|decls| - 1], decls[..|decls| - 1];
    if name != last.name {
      LibraryOnly(front, name);
      var k :| 0 <= k < |front| && front[k].name == name;
      assert decls[k].name == name;
    } else {
      assert decls[|decls| - 1].name == name;
    }
  }
}
