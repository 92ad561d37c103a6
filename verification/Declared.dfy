/** The props a component declares: one for each name, in order of first use, of the type it is first used with. */
module Declared {
  import opened Markup
  import opened Scanner
  import opened TopLevel

  // ---- the placeholders in document order ----

  function AttrsParts(attrs: seq<Attr>): seq<Part> {
    if attrs == [] then []
    else (if attrs[0].Dynamic? then attrs[0].parts else []) + AttrsParts(attrs[1..])
  }

  function ElemParts(e: Elem): seq<Part>
    decreases e, 0
  {
    AttrsParts(e.attrs) + NodesParts(e.nodes)
  }

  function NodesParts(ns: Nodes): seq<Part>
    decreases ns, 1
  {
    match ns
    case Nil => []
    case Cons(Text(_), rest) => NodesParts(rest)
    case Cons(Dyn(parts), rest) => parts + NodesParts(rest)
    case Cons(Child(e), rest) => ElemParts(e) + NodesParts(rest)
  }

  function ArgsParts(args: seq<Arg>): seq<Part> {
    if args == [] then []
    else (if args[0].Forward? then [args[0].part] else []) + ArgsParts(args[1..])
  }

  function PiecesParts(ps: seq<Piece>): seq<Part> {
    if ps == [] then []
    else
      (match ps[0]
       case Own(e) => ElemParts(e)
       case Call(_, args) => ArgsParts(args)) + PiecesParts(ps[1..])
  }

  lemma {:induction false} AttrsRegistered(props: seq<Prop>, attrs: seq<Attr>)
    ensures RegisterAttrs(props, attrs) == RegisterAll(props, AttrsParts(attrs))
    decreases |attrs|
  {
    hide Register;
    if attrs != [] {
      var here := if attrs[0].Dynamic? then attrs[0].parts else [];
      AttrsRegistered(RegisterAttr(props, attrs[0]), attrs[1..]);
      RegisterSplit(props, here, AttrsParts(attrs[1..]));
    }
  }

  lemma {:induction false} ElemRegistered(props: seq<Prop>, e: Elem)
    ensures RegisterElem(props, e) == RegisterAll(props, ElemParts(e))
    decreases e, 0
  {
    hide RegisterAll; hide RegisterAttrs; hide RegisterNodes;
    AttrsRegistered(props, e.attrs);
    NodesRegistered(RegisterAttrs(props, e.attrs), e.nodes);
    RegisterSplit(props, AttrsParts(e.attrs), NodesParts(e.nodes));
  }

  lemma {:induction false} NodesRegistered(props: seq<Prop>, ns: Nodes)
    ensures RegisterNodes(props, ns) == RegisterAll(props, NodesParts(ns))
    decreases ns, 1
  {
    hide RegisterAll; hide RegisterElem; hide ElemParts;
    match ns
    case Nil => NothingRegistered(props);
    case Cons(Text(_), rest) => NodesRegistered(props, rest);
    case Cons(Dyn(parts), rest) =>
      NodesRegistered(RegisterAll(props, parts), rest);
      RegisterSplit(props, parts, NodesParts(rest));
    case Cons(Child(e), rest) =>
      ElemRegistered(props, e);
      NodesRegistered(RegisterElem(props, e), rest);
      RegisterSplit(props, ElemParts(e), NodesParts(rest));
  }

  lemma NothingRegistered(props: seq<Prop>)
    ensures RegisterAll(props, []) == props
  {
  }

  lemma {:induction false} ArgsRegistered(props: seq<Prop>, args: seq<Arg>)
    ensures RegisterArgs(props, args) == RegisterAll(props, ArgsParts(args))
    decreases |args|
  {
    hide Register;
    if args != [] {
      var here := if args[0].Forward? then [args[0].part] else [];
      ArgsRegistered(RegisterArg(props, args[0]), args[1..]);
      RegisterSplit(props, here, ArgsParts(args[1..]));
      assert here != [] ==> here[1..] == [];
      assert RegisterAll(props, here) == RegisterArg(props, args[0]);
    }
  }

  lemma {:induction false} PiecesRegistered(props: seq<Prop>, ps: seq<Piece>)
    ensures RegisterPieces(props, ps) == RegisterAll(props, PiecesParts(ps))
    decreases |ps|
  {
    hide RegisterAll; hide RegisterElem; hide RegisterArgs; hide ElemParts; hide ArgsParts;
    if ps == [] {
      NothingRegistered(props);
    } else {
      PiecesRegistered(RegisterPiece(props, ps[0]), ps[1..]);
      match ps[0] {
        case Own(e) =>
          ElemRegistered(props, e);
          RegisterSplit(props, ElemParts(e), PiecesParts(ps[1..]));
        case Call(_, args) =>
          ArgsRegistered(props, args);
          RegisterSplit(props, ArgsParts(args), PiecesParts(ps[1..]));
      }
    }
  }

  // ---- first uses ----

  /** Where a name is first used, or the number of parts. */
  function FirstUse(parts: seq<Part>, name: string): (r: nat)
    ensures r <= |parts|
    ensures r < |parts| ==> parts[r].Ident? && parts[r].name == name
    ensures forall j :: 0 <= j < r ==> parts[j].Lit? || parts[j].name != name
  {
    if parts == [] then 0
    else if parts[0].Ident? && parts[0].name == name then 0
    else
      var r := FirstUse(parts[1..], name);
      assert forall j :: 1 <= j < r + 1 ==> parts[j] == parts[1..][j - 1];
      r + 1
  }

  /** These are the props of the parts: nothing else, nothing twice, in order of first use and of its type. */
  ghost predicate AreProps(parts: seq<Part>, props: seq<Prop>) {
    && (forall k :: 0 <= k < |props| ==>
          FirstUse(parts, props[k].name) < |parts|
          && props[k].ptype == parts[FirstUse(parts, props[k].name)].ptype)
    && (forall k, l :: 0 <= k < l < |props| ==> FirstUse(parts, props[k].name) < FirstUse(parts, props[l].name))
    && (forall i :: 0 <= i < |parts| && parts[i].Ident? ==> Known(props, parts[i].name))
  }

  lemma UseBehind(parts: seq<Part>, p: Part, name: string)
    ensures var r := FirstUse(parts, name);
      FirstUse(parts + [p], name)
      == if r < |parts| then r else if p.Ident? && p.name == name then |parts| else |parts| + 1
  {
    var r, q := FirstUse(parts, name), FirstUse(parts + [p], name);
    assert forall j :: 0 <= j < |parts| ==> (parts + [p])[j] == parts[j];
    assert (parts + [p])[|parts|] == p;
    if q < |parts| {
      assert r <= q;
    }
    if r < |parts| {
      assert q <= r;
    }
  }

  lemma DeclaresMore(parts: seq<Part>, props: seq<Prop>, p: Part)
    requires AreProps(parts, props)
    ensures AreProps(parts + [p], Register(props, p))
  {
    var all, next := parts + [p], Register(props, p);
    forall k | 0 <= k < |props|
      ensures FirstUse(all, props[k].name) == FirstUse(parts, props[k].name) < |parts|
    {
      UseBehind(parts, p, props[k].name);
    }
    if p.Ident? {
      UseBehind(parts, p, p.name);
      if !Known(props, p.name) {
        NotUsed(parts, props, p.name);
        assert next[|props|].name == p.name;
      }
    }
    forall i | 0 <= i < |all| && all[i].Ident?
      ensures Known(next, all[i].name)
    {
      if i < |parts| {
        assert all[i] == parts[i];
        StaysKnown(props, p, parts[i].name);
      }
    }
  }

  lemma NotUsed(parts: seq<Part>, props: seq<Prop>, name: string)
    requires AreProps(parts, props) && !Known(props, name)
    ensures FirstUse(parts, name) == |parts|
  {
  }

  lemma StaysKnown(props: seq<Prop>, p: Part, name: string)
    requires Known(props, name)
    ensures Known(Register(props, p), name)
  {
    var k :| 0 <= k < |props| && props[k].name == name;
    assert Register(props, p)[k] == props[k];
  }

  lemma {:induction false} AllDeclares(parts: seq<Part>)
    ensures AreProps(parts, RegisterAll([], parts))
    decreases |parts|
  {
    hide Register; hide AreProps;
    if parts == [] {
      assert AreProps([], []) by { NothingDeclared(); }
    } else {
      var front, last := parts[..|parts| - 1], parts[|parts| - 1];
      AllDeclares(front);
      assert parts == front + [last];
      RegisterPush([], front, last);
      DeclaresMore(front, RegisterAll([], front), last);
    }
  }

  lemma NothingDeclared()
    ensures AreProps([], [])
  {
  }

  /** The props of a whole component, over its elements and the arguments it hands on, in document order. */
  lemma ComponentProps(ps: seq<Piece>)
    ensures AreProps(PiecesParts(ps), RegisterPieces([], ps))
  {
    hide AreProps;
    PiecesRegistered([], ps);
    AllDeclares(PiecesParts(ps));
  }
}
