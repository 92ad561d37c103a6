/** The static HTML of an element is its markup with the sites left out and the white space made uniform. */
module Tidied {
  import opened Wrappers
  import opened Markup
  import opened Trees
  import opened Sources
  import opened Reading

  predicate Dynamical(a: SAttr) {
    a.SBraced? || (a.SQuoted? && HasHole(a.bits))
  }

  /** One blank before a name, none around the equals sign. */
  function TidyAttr(a: SAttr): SAttr
    requires !Dynamical(a)
  {
    match a
    case SBare(_, name) => SBare(" ", name)
    case SQuoted(_, name, _, _, bits) => SQuoted(" ", name, "", "", bits)
  }

  function TidyAttrs(attrs: seq<SAttr>): seq<SAttr> {
    if attrs == [] then []
    else (if Dynamical(attrs[0]) then [] else [TidyAttr(attrs[0])]) + TidyAttrs(attrs[1..])
  }

  function TidyRun(r: SRun): SRun {
    SRun("", if HasHole(r.bits) then [] else r.bits, "")
  }

  function TidyNodes(ns: SNodes): SNodes
    decreases ns, 2
  {
    match ns
    case Last(run) => Last(TidyRun(run))
    case More(run, child, rest) => More(TidyRun(run), Tidy(child), TidyNodes(rest))
  }

  /** A void tag keeps its slash behind one blank; any other tag closed by a slash is opened and closed. */
  function TidyEnding(tag: string, ending: Ending): Ending
    decreases ending, 0
  {
    match ending
    case Slash => if VoidName(tag) then Slash else Content(Last(SRun("", [], "")), "", "")
    case Open => Open
    case Content(nodes, _, _) => Content(TidyNodes(nodes), "", "")
  }

  function Tidy(e: SElem): SElem
    decreases e, 1
  {
    var pad := if VoidName(e.tag) && e.ending.Slash? then " " else "";
    SElem(e.tag, TidyAttrs(e.attrs), pad, TidyEnding(e.tag, e.ending))
  }

  // ---- it may be written ----

  lemma {:induction false} TidyAttrsOk(attrs: seq<SAttr>)
    requires SAttrsOk(attrs)
    ensures SAttrsOk(TidyAttrs(attrs)) && forall k :: 0 <= k < |TidyAttrs(attrs)| ==> TidyAttrs(attrs)[k].gap == " "
    decreases |attrs|
  {
    if attrs != [] {
      assert SAttrOk(attrs[0]) && forall k :: 0 <= k < |attrs[1..]| ==> attrs[1..][k] == attrs[k + 1];
      TidyAttrsOk(attrs[1..]);
      if !Dynamical(attrs[0]) {
        TidyAttrOk(attrs[0]);
        GappedOk(TidyAttr(attrs[0]), TidyAttrs(attrs[1..]));
      } else {
        assert [] + TidyAttrs(attrs[1..]) == TidyAttrs(attrs[1..]);
      }
    }
  }

  lemma TidyAttrOk(a: SAttr)
    requires SAttrOk(a) && !Dynamical(a)
    ensures SAttrOk(TidyAttr(a)) && TidyAttr(a).gap == " "
  {
    hide BitsOk; hide BitsText; hide SlotOk;
  }

  lemma GappedOk(a: SAttr, rest: seq<SAttr>)
    requires SAttrOk(a) && SAttrsOk(rest) && a.gap == " " && forall k :: 0 <= k < |rest| ==> rest[k].gap == " "
    ensures SAttrsOk([a] + rest) && forall k :: 0 <= k < |[a] + rest| ==> ([a] + rest)[k].gap == " "
  {
    hide SAttrOk;
  }

  lemma TidyRunOk(r: SRun)
    requires RunOk(r)
    ensures RunOk(TidyRun(r)) && !HasHole(TidyRun(r).bits)
  {
    hide BitOk;
    assert BitsText([]) == "";
  }

  lemma {:induction false} TidyNodesOk(ns: SNodes)
    requires SNodesOk(ns)
    ensures SNodesOk(TidyNodes(ns)) && !AnyHole(TidyNodes(ns))
    decreases ns, 2
  {
    hide RunOk; hide SElemOk; hide HasHole;
    TidyRunOk(ns.run);
    if ns.More? {
      TidyOk(ns.child);
      TidyNodesOk(ns.rest);
    }
  }

  lemma {:induction false} TidyOk(e: SElem)
    requires SElemOk(e)
    ensures SElemOk(Tidy(e))
    decreases e, 1
  {
    hide SAttrsOk; hide TidyAttrs; hide SNodesOk; hide TidyNodes; hide AnyHole; hide NameOk; hide VoidName;
    TidyAttrsOk(e.attrs);
    match e.ending
    case Slash => NothingOk();
    case Open =>
    case Content(nodes, _, _) => TidyNodesOk(nodes);
  }

  lemma NothingOk()
    ensures SNodesOk(Last(SRun("", [], ""))) && !AnyHole(Last(SRun("", [], "")))
  {
    assert BitsText([]) == "";
  }

  // ---- it is the static HTML ----

  lemma AttrHtmlIs(a: SAttr)
    ensures AttrHtml(AttrOf(a)) == if Dynamical(a) then "" else TidyAttr(a).gap + AttrText(TidyAttr(a))
  {
    hide BitsText; hide HasHole;
    if a.SQuoted? && !HasHole(a.bits) {
      var v := QUOTE + BitsText(a.bits) + QUOTE;
      assert "" + v == v && "" + ("=" + v) == "=" + v;
      assert " " + a.name + "=" + QUOTE + BitsText(a.bits) + QUOTE == " " + (a.name + ("=" + v));
    }
  }

  lemma {:induction false} AttrsHtmlIs(attrs: seq<SAttr>)
    ensures AttrsHtml(AttrsOf(attrs)) == AttrsText(TidyAttrs(attrs))
    decreases |attrs|
  {
    hide AttrOf; hide AttrHtml; hide TidyAttr; hide AttrText; hide Dynamical;
    if attrs != [] {
      AttrHtmlIs(attrs[0]);
      AttrsHtmlIs(attrs[1..]);
      assert AttrsOf(attrs)[1..] == AttrsOf(attrs[1..]);
      var rest := TidyAttrs(attrs[1..]);
      if Dynamical(attrs[0]) {
        assert [] + rest == rest && "" + AttrsText(rest) == AttrsText(rest);
      } else {
        var a := TidyAttr(attrs[0]);
        assert ([a] + rest)[1..] == rest;
        assert a.gap + AttrText(a) + AttrsText(rest) == a.gap + (AttrText(a) + AttrsText(rest));
      }
    }
  }

  lemma RunHtmlIs(r: SRun)
    requires RunOk(r)
    ensures NodesHtml(RunOf(r)) == RunText(TidyRun(r))
  {
    hide BitsText; hide HasHole; hide RunOk;
    RunBitsOk(r);
    HolesSeen(r.bits);
    var s := BitsText(r.bits);
    assert "" + s + "" == s && s + "" == s;
    NoHoles();
  }

  lemma NoHoles()
    ensures BitsText([]) == "" && !HasHole([])
  {
  }

  lemma RunBitsOk(r: SRun)
    requires RunOk(r)
    ensures BitsOk(r.bits)
  {
  }

  lemma {:induction false} NodesHtmlIs(ns: SNodes)
    requires SNodesOk(ns)
    ensures NodesHtml(NodesOf(ns)) == NodesText(TidyNodes(ns))
    decreases ns, 2
  {
    hide RunOk; hide SElemOk; hide HasHole; hide RunOf; hide RunText; hide TidyRun; hide ElemHtml; hide ElemOf;
    hide Tidy;
    hide ElemText;
    RunHtmlIs(ns.run);
    RunHasHole(ns.run);
    if ns.More? {
      TidyIsHtml(ns.child);
      NodesHtmlIs(ns.rest);
      PrependHtml(RunOf(ns.run), Cons(Child(ElemOf(ns.child)), NodesOf(ns.rest)));
    }
  }

  lemma PrependHtml(run: Nodes, more: Nodes)
    requires run.Cons? ==> run.tail.Nil?
    ensures NodesHtml(if run.Nil? then more else Cons(run.head, more)) == NodesHtml(run) + NodesHtml(more)
  {
    hide NodeHtml;
    if run.Cons? {
      assert NodeHtml(run.head) + "" == NodeHtml(run.head);
    }
  }

  /** Character for character. */
  lemma {:induction false} TidyIsHtml(e: SElem)
    requires SElemOk(e)
    ensures ElemHtml(ElemOf(e)) == ElemText(Tidy(e))
    decreases e, 1
  {
    hide SAttrsOk; hide AttrsOf; hide TidyAttrs; hide SNodesOk; hide TidyNodes; hide AnyHole; hide VoidName;
    hide NodesOf;
    hide AttrsHtml; hide AttrsText; hide NodesText; hide NodesHtml; hide NameOk;
    AttrsHtmlIs(e.attrs);
    var a, html := AttrsText(TidyAttrs(e.attrs)), ElemHtml(ElemOf(e));
    match e.ending {
      case Slash =>
        if VoidName(e.tag) {
          assert "<" + e.tag + a + " />" == "<" + (e.tag + ((a + " ") + "/>"));
        } else {
          EmptyContent();
          ContentIs(e.tag, a, "");
        }
      case Open =>
        assert "<" + e.tag + a + ">" == "<" + (e.tag + ((a + "") + ">"));
      case Content(nodes, _, _) =>
        NodesHtmlIs(nodes);
        ContentIs(e.tag, a, NodesText(TidyNodes(nodes)));
    }
  }

  lemma EmptyContent()
    ensures NodesHtml(Nil) == "" && NodesText(Last(SRun("", [], ""))) == ""
  {
    assert BitsText([]) == "";
  }

  lemma ContentIs(tag: string, a: string, x: string)
    ensures "<" + tag + a + ">" + x + CloseHtml(tag)
         == "<" + (tag + ((a + "") + (">" + (x + CloseText(tag, "", "")))))
  {
    assert CloseHtml(tag) == CloseText(tag, "", "") by { assert "" + tag + "" == tag; }
    assert a + "" == a;
  }

  /** So the static HTML is markup again: of the element without its sites. */
  lemma HtmlReads(e: SElem)
    requires SElemOk(e)
    ensures ElemHtml(ElemOf(e)) != ""
    ensures ReadElem(ElemHtml(ElemOf(e)), 0) == Some((ElemOf(Tidy(e)), |ElemHtml(ElemOf(e))|))
  {
    hide ElemHtml; hide ElemOf; hide Tidy; hide SElemOk; hide ElemText; hide ReadElem;
    TidyIsHtml(e);
    TidyOk(e);
    var m := ElemText(Tidy(e));
    AtStart(m, "");
    assert m + "" == m;
    ElemRead(m, 0, Tidy(e));
  }
}
