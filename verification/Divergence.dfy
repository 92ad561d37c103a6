/**
 * Where the two lowerings part: ampersands written without escaping, and
 * attribute names given twice.
 */
module Divergence {
  import opened Markup
  import opened Lowering
  import opened Escapes
  import opened Html
  import opened Trees
  import opened Painting
  import opened Agreement

  /** No dynamic attribute repeats the name of an attribute before it. */
  predicate LateFree(attrs: seq<Attr>) {
    forall i, j :: 0 <= i < j < |attrs| && attrs[j].Dynamic? ==> attrs[i].name != attrs[j].name
  }

  predicate Distinct(e: Elem) {
    LateFree(e.attrs) && NodesDistinct(e.nodes)
  }

  predicate NodesDistinct(ns: Nodes) {
    ns.Cons? ==> (ns.head.Child? ==> Distinct(ns.head.elem)) && NodesDistinct(ns.tail)
  }

  // ---- distinct names: agreement is a matter of ampersands ----

  lemma AttrsClean(attrs: seq<Attr>, props: Props)
    requires LateFree(attrs) && AttrsEach(attrs, TypedIn(props))
    ensures AttrsAgree(attrs, props) <==> AttrsEach(attrs, CleanIn(props))
  {
    hide Decode; hide RenderedAll; hide Plain; hide CleanRun;
    if AttrsAgree(attrs, props) {
      forall i | 0 <= i < |attrs| && attrs[i].Dynamic?
        ensures CleanIn(props)(attrs[i].parts, true)
      {
        assert TypedIn(props)(attrs[i].parts, true);
        assert First(attrs, i) && LastDynamic(attrs, i);
        RunReadsBack(attrs[i].parts, props, true);
      }
    }
    if AttrsEach(attrs, CleanIn(props)) {
      forall f: nat, i: nat | First(attrs, f) && LastDynamic(attrs, i) && attrs[f].name == attrs[i].name
        ensures AgreeAt(attrs[f], attrs[i], props)
      {
        assert f == i;
        assert TypedIn(props)(attrs[i].parts, true) && CleanIn(props)(attrs[i].parts, true);
        RunReadsBack(attrs[i].parts, props, true);
      }
    }
  }

  /** With distinct names the lowerings agree exactly when every run is clean. */
  lemma {:induction false} DistinctAgrees(e: Elem, props: Props)
    requires Distinct(e) && Each(e, TypedIn(props))
    ensures Agrees(e, props) <==> Each(e, CleanIn(props))
    decreases e
  {
    hide AttrsAgree; hide AttrsEach; hide LateFree;
    AttrsClean(e.attrs, props);
    NodesDistinctAgree(e.nodes, props);
  }

  lemma {:induction false} NodesDistinctAgree(ns: Nodes, props: Props)
    requires NodesDistinct(ns) && NodesEach(ns, TypedIn(props))
    ensures NodesAgree(ns, props) <==> NodesEach(ns, CleanIn(props))
    decreases ns
  {
    hide CleanRun;
    if ns.Cons? {
      match ns.head {
        case Text(run) =>
        case Dyn(parts) => assert TypedIn(props)(parts, false);
        case Child(c) => DistinctAgrees(c, props);
      }
      NodesDistinctAgree(ns.tail, props);
    }
  }

  /**
   * With distinct names and no ampersand in the static part of a dynamic run,
   * the lowerings agree on all props.
   */
  lemma LoweringsAgree(e: Elem, props: Props)
    requires ElemOk(e) && Lettered(e) && Each(e, Unraw()) && Each(e, TypedIn(props))
    requires Distinct(e) && Each(e, Ampersandless())
    ensures Ascending(ElemOps(e, [], 0), 0, |ElemHtml(e)|)
    ensures var html, ops := ElemHtml(e), ElemOps(e, [], 0);
      var written, template := RunWrites(Merge(html, ops, 0), props), Parse(html);
      written.Some? && template.Some? && Parse(written.value).Some?
      && Parse(written.value) == RunSteps(template.value, PaintSteps(ops, ""), props)
  {
    hide Parse; hide ElemHtml; hide ElemOps; hide Each; hide ElemOk; hide Lettered; hide Ascending; hide Merge;
    hide RunWrites;
    hide RunSteps; hide PaintSteps; hide Agrees; hide Distinct;
    LoweringsAgreeIff(e, props);
    DistinctAgrees(e, props);
    forall parts, b | Ampersandless()(parts, b)
      ensures CleanIn(props)(parts, b)
    {
      if AllTyped(parts, props) {
        NoAmpersandIsClean(parts, props, b);
      }
    }
    EachWeaken(e, Ampersandless(), CleanIn(props));
  }

  // ---- how they part ----

  /** A static escape in placeholder text: the bytes show it decoded, the paint assigns it as written. */
  lemma AmpersandDiverges(props: Props)
    requires "x" in props && props["x"].Str?
    ensures var e := Elem("p", [], Normal, Cons(Dyn([Lit("&lt;"), Ident("x", "string", false)]), Nil));
            ElemOk(e) && Lettered(e) && Distinct(e) && Each(e, TypedIn(props)) && !Agrees(e, props)
  {
    var parts := [Lit("&lt;"), Ident("x", "string", false)];
    UncleanEscape(parts, props);
    var e := Elem("p", [], Normal, Cons(Dyn(parts), Nil));
    assert e.tag[0] == 'p' && !EndsName('p') && "p" !in VOID_TAGS;
    assert PartsAvoid(parts, '<');
    assert !HasChild(e.nodes.tail);
    assert !NodesAgree(e.nodes, props);
  }

  lemma UncleanEscape(parts: seq<Part>, props: Props)
    requires parts == [Lit("&lt;"), Ident("x", "string", false)] && "x" in props && props["x"].Str?
    ensures AllTyped(parts, props) && !CleanRun(parts, props, false)
  {
    assert Typed(parts[0], props) && Typed(parts[1], props);
    var us := RunUnits(parts, props);
    var rest := RunUnits(parts[1..], props);
    assert us == Chars("&lt;", false) + rest;
    assert us[0] == Fixed('&');
    assert us[1..] == [Fixed('l'), Fixed('t'), Fixed(';')] + rest;
    UnitsAppend([Fixed('l'), Fixed('t'), Fixed(';')], rest, false);
    var head := [Fixed('l'), Fixed('t'), Fixed(';')];
    assert head[1..] == [Fixed('t'), Fixed(';')] && head[1..][1..] == [Fixed(';')] && head[1..][1..][1..] == [];
    assert UnitsText(head, false) == "lt;";
    EntityReads("lt;", '<', UnitsText(rest, false));
    assert EntityAt(us, 0, false);
  }

  /** A name given twice: the browser keeps the first, assignment the second, and only equal values agree. */
  lemma DuplicateDiverges(tag: string, name: string, value: string, parts: seq<Part>, props: Props)
    requires AllTyped(parts, props)
    ensures var e := Elem(tag, [Static(name, value), Dynamic(name, parts)], Normal, Nil);
            Each(e, TypedIn(props)) && (Agrees(e, props) <==> Decode(value) == Plain(parts, props))
  {
    hide Decode; hide Plain;
    var attrs := [Static(name, value), Dynamic(name, parts)];
    assert AttrsEach(attrs, TypedIn(props));
    assert attrs[0].name == name && attrs[1].name == name;
    assert First(attrs, 0) && LastDynamic(attrs, 1);
    assert !First(attrs, 1) && !LastDynamic(attrs, 0);
    if Decode(value) == Plain(parts, props) {
      forall f: nat, i: nat | First(attrs, f) && LastDynamic(attrs, i) && attrs[f].name == attrs[i].name
        ensures AgreeAt(attrs[f], attrs[i], props)
      {
        assert f == 0 && i == 1;
      }
    }
  }
}
