/**
 * The two lowerings against each other: what the browser shows for the bytes the
 * native lowering writes, and what the browser lowering paints.
 */
module Agreement {
  import opened Wrappers
  import opened Markup
  import opened Lowering
  import opened Weaving
  import opened Escapes
  import opened Html
  import opened Trees
  import opened Painting

  // ---- sites and operations ----

  /** The operations are the dynamic sites: what holds of each site holds of each operation, and back. */
  lemma {:induction false} SitesAreOps(e: Elem, path: seq<nat>, pos: nat, test: Test)
    requires ElemOk(e)
    ensures Each(e, test)
       <==> AllPass(ElemOps(e, path, pos), test)
    decreases e
  {
    hide AttrsOps; hide NodesOps; hide AttrsEach; hide NodesEach; hide AllPass; hide NodesOk; hide Separate;
    var outer := AttrsOps(e.attrs, path, pos + 1 + |e.tag|);
    AttrSitesAreOps(e.attrs, path, pos + 1 + |e.tag|, test);
    if e.close.Void? {
      assert outer + [] == outer;
      NoSites(test);
    } else {
      var inner := NodesOps(e.nodes, path, 0, pos + |OpenHtml(e)|);
      NodeSitesAreOps(e.nodes, path, 0, pos + |OpenHtml(e)|, test);
      AllOfBoth(outer, inner, test);
      assert ElemOps(e, path, pos) == outer + inner;
    }
  }

  predicate AllPass(ops: seq<Op>, test: Test) {
    forall i :: 0 <= i < |ops| ==> test(ops[i].parts, ops[i].target.ToAttr?)
  }

  lemma NoSites(test: Test)
    ensures NodesEach(Nil, test)
  {
  }

  lemma NoOps(test: Test)
    ensures AllPass([], test) && AttrsEach([], test)
  {
  }

  lemma OneOp(op: Op, test: Test)
    ensures AllPass([op], test) <==> test(op.parts, op.target.ToAttr?)
  {
    assert [op][0] == op;
  }

  lemma AllOfBoth(a: seq<Op>, b: seq<Op>, test: Test)
    ensures AllPass(a + b, test) <==> AllPass(a, test) && AllPass(b, test)
  {
    assert forall i :: 0 <= i < |a| ==> (a + b)[i] == a[i];
    assert forall i :: 0 <= i < |b| ==> (a + b)[|a| + i] == b[i];
    assert forall i :: 0 <= i < |a + b| ==> (a + b)[i] == if i < |a| then a[i] else b[i - |a|];
  }

  lemma {:induction false} AttrSitesAreOps(attrs: seq<Attr>, path: seq<nat>, pos: nat, test: Test)
    ensures AttrsEach(attrs, test)
       <==> AllPass(AttrsOps(attrs, path, pos), test)
    decreases |attrs|
  {
    hide AllPass; hide AttrsEach; hide AttrHtml; hide AttrText; hide AttrsOps; hide SiteText;
    AttrsUnfold(attrs, path, pos, Blank());
    NoOps(test);
    if attrs != [] {
      var a, next := attrs[0], pos + |AttrHtml(attrs[0])|;
      var here := if a.Dynamic? then [Op(ToAttr(a.name), path, a.parts, pos)] else [];
      AttrSitesAreOps(attrs[1..], path, next, test);
      AllOfBoth(here, AttrsOps(attrs[1..], path, next), test);
      OneOp(Op(ToAttr(a.name), path, if a.Dynamic? then a.parts else [], pos), test);
      EachHead(attrs, test);
    }
  }

  lemma EachHead(attrs: seq<Attr>, test: Test)
    requires attrs != []
    ensures AttrsEach(attrs, test)
       <==> (attrs[0].Dynamic? ==> test(attrs[0].parts, true)) && AttrsEach(attrs[1..], test)
  {
    assert forall i :: 0 <= i < |attrs[1..]| ==> attrs[1..][i] == attrs[i + 1];
    if AttrsEach(attrs[1..], test) && (attrs[0].Dynamic? ==> test(attrs[0].parts, true)) {
      forall i | 0 <= i < |attrs| && attrs[i].Dynamic?
        ensures test(attrs[i].parts, true)
      {
        assert i > 0 ==> attrs[1..][i - 1] == attrs[i];
      }
    }
  }

  lemma {:induction false} NodeSitesAreOps(ns: Nodes, path: seq<nat>, k: nat, pos: nat, test: Test)
    requires NodesOk(ns)
    ensures NodesEach(ns, test)
       <==> AllPass(NodesOps(ns, path, k, pos), test)
    decreases ns
  {
    hide NodesOps; hide ElemOps; hide ElemOk; hide Each; hide AllPass; hide ElemHtml; hide NodesHtml;
    NodesUnfold(ns, path, k, pos);
    NoOps(test);
    match ns
    case Nil =>
    case Cons(Text(run), rest) =>
      NodeSitesAreOps(rest, path, k, pos + |run|, test);
    case Cons(Dyn(parts), rest) =>
      NodeSitesAreOps(rest, path, k, pos, test);
      var op := Op(ToText, path, parts, pos);
      AllOfBoth([op], NodesOps(rest, path, k, pos), test);
      OneOp(op, test);
    case Cons(Child(e), rest) =>
      var next := pos + |ElemHtml(e)|;
      SitesAreOps(e, path + [k], pos, test);
      NodeSitesAreOps(rest, path, k + 1, next, test);
      AllOfBoth(ElemOps(e, path + [k], pos), NodesOps(rest, path, k + 1, next), test);
  }

  // ---- tests of a site ----

  function TypedIn(props: Props): Test {
    (parts, inAttr) => AllTyped(parts, props)
  }

  function Unraw(): Test {
    (parts, inAttr) => RawFree(parts)
  }

  function CleanIn(props: Props): Test {
    (parts, inAttr) => AllTyped(parts, props) ==> CleanRun(parts, props, inAttr)
  }

  function Ampersandless(): Test {
    (parts, inAttr) => NoAmpersand(parts)
  }

  lemma {:induction false} EvalTyped(parts: seq<Part>, props: Props)
    requires AllTyped(parts, props)
    ensures Eval(parts, props) == Some(Plain(parts, props))
    decreases |parts|
  {
    if parts != [] {
      assert Typed(parts[0], props);
      EvalTyped(parts[1..], props);
    }
  }

  // ---- when the attributes of one element agree ----

  /** What a browser reads as the value of an attribute the native lowering wrote. */
  function ReadBack(a: Attr, props: Props): string
    requires a.Dynamic? ==> AllTyped(a.parts, props)
  {
    match a
    case Bare(_) => ""
    case Static(_, value) => Decode(value)
    case Dynamic(_, parts) => Decode(RenderedAll(parts, props, true))
  }

  predicate First(attrs: seq<Attr>, f: nat) {
    f < |attrs| && forall j :: 0 <= j < f ==> attrs[j].name != attrs[f].name
  }

  predicate LastDynamic(attrs: seq<Attr>, i: nat) {
    i < |attrs| && attrs[i].Dynamic? && forall j :: i < j < |attrs| && attrs[j].Dynamic? ==>
      attrs[j].name != attrs[i].name
  }

  predicate HasDynamic(attrs: seq<Attr>, name: string) {
    exists j :: 0 <= j < |attrs| && attrs[j].Dynamic? && attrs[j].name == name
  }

  /**
   * A parser keeps the first of two equal names, assignment the last: for every
   * dynamic name the first attribute reads back as what the last one assigns.
   */
  ghost predicate AttrsAgree(attrs: seq<Attr>, props: Props)
    requires AttrsEach(attrs, TypedIn(props))
  {
    forall f: nat, i: nat :: First(attrs, f) && LastDynamic(attrs, i) && attrs[f].name == attrs[i].name
      ==> AgreeAt(attrs[f], attrs[i], props)
  }

  /** The value read back from one attribute is the value another one assigns. */
  predicate AgreeAt(first: Attr, last: Attr, props: Props)
    requires last.Dynamic?
  {
    AllTyped(last.parts, props) && (first.Dynamic? ==> AllTyped(first.parts, props))
    && ReadBack(first, props) == Plain(last.parts, props)
  }

  function Shown(props: Props): Fill {
    Reading(Written(props))
  }

  lemma SiteValues(parts: seq<Part>, inAttr: bool, props: Props)
    requires TypedIn(props)(parts, true)
    ensures AllTyped(parts, props)
    ensures Shown(props)(parts, inAttr) == Some(Decode(RenderedAll(parts, props, inAttr)))
    ensures Over(Blank(), "", props)(parts, inAttr) == Some(Plain(parts, props))
  {
    EvalTyped(parts, props);
    assert AllTyped(parts, props);
    assert Written(props)(parts, inAttr) == Some(RenderedAll(parts, props, inAttr));
    assert Reading(Written(props))(parts, inAttr) == ReadOf(Written(props)(parts, inAttr));
    assert Chosen(parts, "");
    assert Over(Blank(), "", props)(parts, inAttr) == Eval(parts, props);
  }

  lemma {:induction false} FirstShows(attrs: seq<Attr>, f: nat, props: Props)
    requires First(attrs, f) && AttrsEach(attrs, TypedIn(props))
    ensures attrs[f].Dynamic? ==> AllTyped(attrs[f].parts, props)
    ensures attrs[f].name in AttrsTree(attrs, Shown(props))
    ensures AttrsTree(attrs, Shown(props))[attrs[f].name] == ReadBack(attrs[f], props)
    decreases |attrs|
  {
    hide Decode; hide RenderedAll; hide Shown;
    EachHead(attrs, TypedIn(props));
    if attrs[0].Dynamic? {
      SiteValues(attrs[0].parts, true, props);
    }
    if f > 0 {
      assert attrs[1..][f - 1] == attrs[f];
      assert forall j :: 0 <= j < |attrs[1..]| ==> attrs[1..][j] == attrs[j + 1];
      FirstShows(attrs[1..], f - 1, props);
      assert attrs[0].name != attrs[f].name;
    }
  }

  lemma {:induction false} LastPaints(m: map<string, string>, attrs: seq<Attr>, i: nat, props: Props)
    requires LastDynamic(attrs, i) && AttrsEach(attrs, TypedIn(props))
    ensures AllTyped(attrs[i].parts, props)
    ensures attrs[i].name in RunAttrs(m, attrs, "", props)
    ensures RunAttrs(m, attrs, "", props)[attrs[i].name] == Plain(attrs[i].parts, props)
    decreases |attrs|
  {
    EachHead(attrs, TypedIn(props));
    var next := RunAttr(m, attrs[0], "", props);
    assert forall j :: 0 <= j < |attrs[1..]| ==> attrs[1..][j] == attrs[j + 1];
    if i > 0 {
      LastPaints(next, attrs[1..], i - 1, props);
    } else {
      EvalTyped(attrs[0].parts, props);
      assert !HasDynamic(attrs[1..], attrs[0].name);
      OthersKeep(next, attrs[1..], attrs[0].name, props);
    }
  }

  /** A name no dynamic attribute has keeps its value through the assignments. */
  lemma {:induction false} OthersKeep(m: map<string, string>, attrs: seq<Attr>, name: string, props: Props)
    requires !HasDynamic(attrs, name)
    ensures var r := RunAttrs(m, attrs, "", props);
            (name in r <==> name in m) && (name in m ==> r[name] == m[name])
    decreases |attrs|
  {
    if attrs != [] {
      assert forall j :: 0 <= j < |attrs[1..]| ==> attrs[1..][j] == attrs[j + 1];
      OthersKeep(RunAttr(m, attrs[0], "", props), attrs[1..], name, props);
    }
  }

  lemma {:induction false} StaticsSame(attrs: seq<Attr>, name: string, f: Fill, g: Fill)
    requires !HasDynamic(attrs, name)
    ensures var x, y := AttrsTree(attrs, f), AttrsTree(attrs, g);
            (name in x <==> name in y) && (name in x ==> x[name] == y[name])
    decreases |attrs|
  {
    hide Decode;
    if attrs != [] {
      assert forall j :: 0 <= j < |attrs[1..]| ==> attrs[1..][j] == attrs[j + 1];
      StaticsSame(attrs[1..], name, f, g);
    }
  }

  lemma {:induction false} FirstExists(attrs: seq<Attr>, i: nat) returns (f: nat)
    requires i < |attrs|
    ensures First(attrs, f) && attrs[f].name == attrs[i].name
    decreases i
  {
    if j: nat :| j < i && attrs[j].name == attrs[i].name {
      f := FirstExists(attrs, j);
    } else {
      f := i;
    }
  }

  lemma {:induction false} LastExists(attrs: seq<Attr>, i: nat) returns (l: nat)
    requires i < |attrs| && attrs[i].Dynamic?
    ensures LastDynamic(attrs, l) && attrs[l].name == attrs[i].name
    decreases |attrs| - i
  {
    if j: nat :| i < j < |attrs| && attrs[j].Dynamic? && attrs[j].name == attrs[i].name {
      l := LastExists(attrs, j);
    } else {
      l := i;
    }
  }

  lemma AttrsAgreeIff(attrs: seq<Attr>, props: Props)
    requires AttrsEach(attrs, TypedIn(props))
    ensures AttrsTree(attrs, Shown(props)) == RunAttrs(AttrsTree(attrs, Blank()), attrs, "", props)
       <==> AttrsAgree(attrs, props)
  {
    hide AttrsTree; hide RunAttrs; hide ReadBack; hide Plain; hide Shown; hide Blank;
    var x, y := AttrsTree(attrs, Shown(props)), RunAttrs(AttrsTree(attrs, Blank()), attrs, "", props);
    if x == y {
      forall f: nat, i: nat | First(attrs, f) && LastDynamic(attrs, i) && attrs[f].name == attrs[i].name
        ensures AgreeAt(attrs[f], attrs[i], props)
      {
        FirstShows(attrs, f, props);
        LastPaints(AttrsTree(attrs, Blank()), attrs, i, props);
      }
    }
    if AttrsAgree(attrs, props) {
      forall name: string
        ensures (name in x <==> name in y) && (name in x ==> x[name] == y[name])
      {
        NameAgrees(attrs, name, props);
      }
      assert x == y;
    }
  }

  lemma NameAgrees(attrs: seq<Attr>, name: string, props: Props)
    requires AttrsEach(attrs, TypedIn(props)) && AttrsAgree(attrs, props)
    ensures var x, y := AttrsTree(attrs, Shown(props)), RunAttrs(AttrsTree(attrs, Blank()), attrs, "", props);
            (name in x <==> name in y) && (name in x ==> x[name] == y[name])
  {
    hide AttrsTree; hide RunAttrs; hide ReadBack; hide Plain; hide First; hide LastDynamic; hide Shown; hide Blank;
    if HasDynamic(attrs, name) {
      var j: nat :| j < |attrs| && attrs[j].Dynamic? && attrs[j].name == name;
      var f := FirstExists(attrs, j);
      var i := LastExists(attrs, j);
      FirstShows(attrs, f, props);
      LastPaints(AttrsTree(attrs, Blank()), attrs, i, props);
    } else {
      StaticsSame(attrs, name, Shown(props), Blank());
      OthersKeep(AttrsTree(attrs, Blank()), attrs, name, props);
    }
  }

  // ---- when two trees agree ----

  /** The lowerings agree on every element: its attributes agree and its placeholder text reads back. */
  ghost predicate Agrees(e: Elem, props: Props)
    requires Each(e, TypedIn(props))
  {
    AttrsAgree(e.attrs, props) && NodesAgree(e.nodes, props)
  }

  ghost predicate NodesAgree(ns: Nodes, props: Props)
    requires NodesEach(ns, TypedIn(props))
  {
    ns.Cons? ==>
      (ns.head.Dyn? ==> CleanRun(ns.head.parts, props, false))
      && (ns.head.Child? ==> Agrees(ns.head.elem, props))
      && NodesAgree(ns.tail, props)
  }

  lemma {:induction false} TreesAgreeIff(e: Elem, props: Props)
    requires ElemOk(e) && Each(e, TypedIn(props))
    ensures Tree(e, Shown(props)) == PaintTree(e, Blank(), "", props) <==> Agrees(e, props)
    decreases e
  {
    hide AttrsTree; hide RunAttrs; hide Forest; hide PaintForest; hide AttrsAgree; hide NodesAgree; hide Shown;
    hide Blank; hide NodesOk;
    AttrsAgreeIff(e.attrs, props);
    if e.close.Void? {
      NoNodesAgree(props);
    } else {
      ForestsAgreeIff(e.nodes, props);
    }
  }

  lemma NoNodesAgree(props: Props)
    ensures NodesEach(Nil, TypedIn(props)) && NodesAgree(Nil, props)
  {
  }

  lemma {:induction false} ForestsAgreeIff(ns: Nodes, props: Props)
    requires NodesOk(ns) && NodesEach(ns, TypedIn(props))
    ensures Forest(ns, Shown(props)) == PaintForest(ns, Blank(), "", props) <==> NodesAgree(ns, props)
    decreases ns
  {
    hide Tree; hide PaintTree; hide Agrees; hide Shown; hide Over; hide Blank; hide Decode; hide RenderedAll;
    hide Plain; hide CleanRun; hide ElemOk;
    if ns.Cons? {
      ForestsAgreeIff(ns.tail, props);
      match ns.head
      case Text(run) =>
      case Dyn(parts) =>
        RunReadsBack(parts, props, false);
        SiteValues(parts, false, props);
        TailHead(ns.tail, Shown(props), props);
      case Child(e) =>
        TreesAgreeIff(e, props);
    }
  }

  lemma TailHead(ns: Nodes, fill: Fill, props: Props)
    requires ns.Nil? || ns.head.Child?
    ensures Forest(ns, fill).DNil? || Forest(ns, fill).head.El?
    ensures PaintForest(ns, Blank(), "", props).DNil? || PaintForest(ns, Blank(), "", props).head.El?
  {
  }

  // ---- what is written stays inside its site ----

  lemma {:induction false} EscapeAvoids(s: string, inAttr: bool)
    ensures '<' !in Escape(s, inAttr)
    ensures inAttr ==> '"' !in Escape(s, inAttr)
    decreases |s|
  {
    if s != "" {
      EscapeAvoids(s[1..], inAttr);
    }
  }

  lemma PartAvoids(p: Part, props: Props, inAttr: bool)
    requires Typed(p, props) && (p.Ident? ==> !p.raw)
    requires p.Lit? ==> (if inAttr then '"' else '<') !in p.text
    ensures (if inAttr then '"' else '<') !in Rendered(p, props, inAttr)
  {
    if p.Ident? {
      match props[p.name]
      case Str(s) => EscapeAvoids(s, inAttr);
      case Bool(b) =>
      case Num(digits) =>
        assert forall i :: 0 <= i < |digits| ==> digits[i] !in SPECIAL;
    }
  }

  lemma {:induction false} RenderedAvoids(parts: seq<Part>, props: Props, inAttr: bool)
    requires AllTyped(parts, props) && RawFree(parts) && PartsAvoid(parts, if inAttr then '"' else '<')
    ensures (if inAttr then '"' else '<') !in RenderedAll(parts, props, inAttr)
    decreases |parts|
  {
    hide Rendered;
    if parts != [] {
      PartAvoids(parts[0], props, inAttr);
      assert forall i :: 0 <= i < |parts[1..]| ==> parts[1..][i] == parts[i + 1];
      RenderedAvoids(parts[1..], props, inAttr);
    }
  }

  lemma SiteWithin(parts: seq<Part>, props: Props, inAttr: bool)
    requires RawFree(parts) && PartsAvoid(parts, if inAttr then '"' else '<')
    ensures Within(Written(props))(parts, inAttr)
  {
    var v := Written(props)(parts, inAttr);
    assert v == if AllTyped(parts, props) then Some(RenderedAll(parts, props, inAttr)) else None;
    if AllTyped(parts, props) {
      RenderedAvoids(parts, props, inAttr);
    }
    assert Avoids(v, if inAttr then '"' else '<');
  }

  lemma {:induction false} WrittenStays(e: Elem, props: Props)
    requires ElemOk(e) && Each(e, Unraw())
    ensures Each(e, Within(Written(props)))
    decreases e
  {
    forall i | 0 <= i < |e.attrs| && e.attrs[i].Dynamic?
      ensures Within(Written(props))(e.attrs[i].parts, true)
    {
      assert AttrOk(e.attrs[i]) && Unraw()(e.attrs[i].parts, true);
      SiteWithin(e.attrs[i].parts, props, true);
    }
    NodesStay(e.nodes, props);
  }

  lemma {:induction false} NodesStay(ns: Nodes, props: Props)
    requires NodesOk(ns) && NodesEach(ns, Unraw())
    ensures NodesEach(ns, Within(Written(props)))
    decreases ns
  {
    if ns.Cons? {
      match ns.head {
        case Text(run) =>
        case Dyn(parts) =>
          assert Unraw()(parts, false);
          SiteWithin(parts, props, false);
        case Child(e) => WrittenStays(e, props);
      }
      NodesStay(ns.tail, props);
    }
  }

  lemma {:induction false} EachAlways(e: Elem, test: Test)
    requires forall parts, b :: test(parts, b)
    ensures Each(e, test)
    decreases e
  {
    NodesAlways(e.nodes, test);
  }

  lemma {:induction false} NodesAlways(ns: Nodes, test: Test)
    requires forall parts, b :: test(parts, b)
    ensures NodesEach(ns, test)
    decreases ns
  {
    if ns.Cons? {
      if ns.head.Child? {
        EachAlways(ns.head.elem, test);
      }
      NodesAlways(ns.tail, test);
    }
  }

  // ---- trees depend only on what stands at the sites ----

  function Same(f: Fill, g: Fill): Test {
    (parts, inAttr) => f(parts, inAttr) == g(parts, inAttr)
  }

  lemma {:induction false} AttrsTreeSame(attrs: seq<Attr>, f: Fill, g: Fill)
    requires AttrsEach(attrs, Same(f, g))
    ensures AttrsTree(attrs, f) == AttrsTree(attrs, g)
    decreases |attrs|
  {
    if attrs != [] {
      EachHead(attrs, Same(f, g));
      AttrsTreeSame(attrs[1..], f, g);
    }
  }

  lemma {:induction false} TreeSame(e: Elem, f: Fill, g: Fill)
    requires Each(e, Same(f, g))
    ensures Tree(e, f) == Tree(e, g)
    decreases e
  {
    AttrsTreeSame(e.attrs, f, g);
    ForestSame(e.nodes, f, g);
  }

  lemma {:induction false} ForestSame(ns: Nodes, f: Fill, g: Fill)
    requires NodesEach(ns, Same(f, g))
    ensures Forest(ns, f) == Forest(ns, g)
    decreases ns
  {
    if ns.Cons? {
      match ns.head {
        case Text(run) =>
        case Dyn(parts) => assert Same(f, g)(parts, false);
        case Child(e) => TreeSame(e, f, g);
      }
      ForestSame(ns.tail, f, g);
    }
  }

  // ---- the main result ----

  lemma BlankSite(parts: seq<Part>, inAttr: bool)
    ensures Within(Blank())(parts, inAttr) && Same(Reading(Blank()), Blank())(parts, inAttr)
  {
    assert Blank()(parts, inAttr) == None;
  }

  /** The template: what the browser makes of the static HTML. */
  lemma TemplateParses(e: Elem)
    requires ElemOk(e) && Lettered(e)
    ensures Parse(ElemHtml(e)) == Some(Tree(e, Blank()))
  {
    hide Parse; hide Tree; hide ElemHtml; hide ElemText; hide Each; hide ElemOk; hide Lettered;
    ElemBlank(e);
    forall parts, b
      ensures Within(Blank())(parts, b) && Same(Reading(Blank()), Blank())(parts, b)
    {
      BlankSite(parts, b);
    }
    EachAlways(e, Within(Blank()));
    TextParses(e, Blank());
    EachAlways(e, Same(Reading(Blank()), Blank()));
    TreeSame(e, Reading(Blank()), Blank());
  }

  /** What the browser shows for the rendered bytes. */
  lemma RenderShows(e: Elem, props: Props)
    requires ElemOk(e) && Lettered(e) && Each(e, Unraw()) && Each(e, TypedIn(props))
    ensures Ascending(ElemOps(e, [], 0), 0, |ElemHtml(e)|)
    ensures var written := RunWrites(Merge(ElemHtml(e), ElemOps(e, [], 0), 0), props);
            written.Some? && Parse(written.value) == Some(Tree(e, Shown(props)))
  {
    hide Parse; hide Tree; hide ElemHtml; hide ElemText; hide Each; hide ElemOk; hide Lettered; hide Ascending;
    hide Merge;
    hide RunWrites; hide ElemOps;
    SitesAreOps(e, [], 0, TypedIn(props));
    assert OpsTyped(ElemOps(e, [], 0), props) by { PassTyped(ElemOps(e, [], 0), props); }
    RenderIsText(e, props);
    WrittenStays(e, props);
    TextParses(e, Written(props));
  }

  lemma PassTyped(ops: seq<Op>, props: Props)
    requires AllPass(ops, TypedIn(props))
    ensures OpsTyped(ops, props)
  {
    forall i | 0 <= i < |ops|
      ensures AllTyped(ops[i].parts, props)
    {
      assert TypedIn(props)(ops[i].parts, ops[i].target.ToAttr?);
    }
  }

  lemma PassRawFree(ops: seq<Op>)
    requires AllPass(ops, Unraw())
    ensures forall i :: 0 <= i < |ops| ==> RawFree(ops[i].parts)
  {
    forall i | 0 <= i < |ops|
      ensures RawFree(ops[i].parts)
    {
      assert Unraw()(ops[i].parts, ops[i].target.ToAttr?);
    }
  }

  /** What the assignments make of a tree whose sites hold `base`. */
  lemma StepsPaint(e: Elem, base: Fill, only: string, env: Props)
    requires ElemOk(e) && Each(e, Unraw()) && Each(e, Able(only, env))
    ensures RunSteps(Tree(e, base), PaintSteps(ElemOps(e, [], 0), only), env) == Some(PaintTree(e, base, only, env))
  {
    hide Tree; hide PaintTree; hide ElemOps; hide Each; hide ElemOk; hide RunSteps; hide PaintSteps; hide RunOps;
    SitesAreOps(e, [], 0, Unraw());
    PassRawFree(ElemOps(e, [], 0));
    StepsAreOps(Tree(e, base), ElemOps(e, [], 0), only, env);
    TreeIsAttired(e, base);
    PaintIsAttired(e, base, only, env);
    ElemPaints(e, [], 0, Worn(base), base, only, env);
  }

  lemma TypedIsAble(e: Elem, only: string, props: Props)
    requires Each(e, TypedIn(props))
    ensures Each(e, Able(only, props))
  {
    forall parts, b | TypedIn(props)(parts, b)
      ensures Able(only, props)(parts, b)
    {
      EvalTyped(parts, props);
    }
    EachWeaken(e, TypedIn(props), Able(only, props));
  }

  /**
   * The lowerings agree: for any scanned element and any props of its types, the
   * browser shows for the rendered bytes exactly the tree the paint assignments
   * make, if and only if each element's attributes and placeholder text agree.
   */
  lemma LoweringsAgreeIff(e: Elem, props: Props)
    requires ElemOk(e) && Lettered(e) && Each(e, Unraw()) && Each(e, TypedIn(props))
    ensures Ascending(ElemOps(e, [], 0), 0, |ElemHtml(e)|)
    ensures var html, ops := ElemHtml(e), ElemOps(e, [], 0);
      var written, template := RunWrites(Merge(html, ops, 0), props), Parse(html);
      written.Some? && template.Some?
      && var shown, painted := Parse(written.value), RunSteps(template.value, PaintSteps(ops, ""), props);
      shown.Some? && painted.Some? && (shown == painted <==> Agrees(e, props))
  {
    hide Parse; hide Tree; hide PaintTree; hide ElemHtml; hide ElemOps; hide Each; hide ElemOk; hide Lettered;
    hide Ascending;
    hide Merge; hide RunWrites; hide RunSteps; hide PaintSteps; hide Agrees;
    RenderShows(e, props);
    TemplateParses(e);
    TypedIsAble(e, "", props);
    StepsPaint(e, Blank(), "", props);
    TreesAgreeIff(e, props);
  }
}
