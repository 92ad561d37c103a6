/**
 * What the merge produces: the element itself, with every dynamic site filled in
 * where the markup has it.
 */
module Weaving {
  import opened Wrappers
  import opened Markup
  import opened Lowering

  /** What stands at a dynamic site (in an attribute or not); None leaves the site out. */
  type Fill = (seq<Part>, bool) -> Option<string>

  function Blank(): Fill {
    (parts, inAttr) => None
  }

  function Written(props: Props): Fill {
    (parts, inAttr) => if AllTyped(parts, props) then Some(RenderedAll(parts, props, inAttr)) else None
  }

  // ---- the element as text ----

  function SiteText(name: string, value: Option<string>): string {
    if value.None? then "" else " " + name + "=" + QUOTE + value.value + QUOTE
  }

  function RunText(value: Option<string>): string {
    if value.None? then "" else value.value
  }

  function AttrText(a: Attr, fill: Fill): string {
    if a.Dynamic? then SiteText(a.name, fill(a.parts, true)) else AttrHtml(a)
  }

  function AttrsText(attrs: seq<Attr>, fill: Fill): string {
    if attrs == [] then "" else AttrText(attrs[0], fill) + AttrsText(attrs[1..], fill)
  }

  function TagEnd(close: Close): string {
    if close == Void(true) then " />" else ">"
  }

  function ElemText(e: Elem, fill: Fill): string {
    var open := "<" + e.tag + AttrsText(e.attrs, fill) + TagEnd(e.close);
    if e.close.Void? then open else open + NodesText(e.nodes, fill) + CloseHtml(e.tag)
  }

  function NodeText(n: Node, fill: Fill): string {
    match n
    case Text(run) => run
    case Dyn(parts) => RunText(fill(parts, false))
    case Child(e) => ElemText(e, fill)
  }

  function NodesText(ns: Nodes, fill: Fill): string {
    match ns
    case Nil => ""
    case Cons(n, rest) => NodeText(n, fill) + NodesText(rest, fill)
  }

  lemma {:induction false} AttrsBlank(attrs: seq<Attr>)
    ensures AttrsText(attrs, Blank()) == AttrsHtml(attrs)
  {
    if attrs != [] {
      AttrsBlank(attrs[1..]);
    }
  }

  /** The static HTML is the element with every dynamic site left out. */
  lemma {:induction false} ElemBlank(e: Elem)
    ensures ElemText(e, Blank()) == ElemHtml(e)
  {
    AttrsBlank(e.attrs);
    NodesBlank(e.nodes);
  }

  lemma {:induction false} NodesBlank(ns: Nodes)
    ensures NodesText(ns, Blank()) == NodesHtml(ns)
  {
    if ns.Cons? {
      if ns.head.Child? {
        ElemBlank(ns.head.elem);
      }
      NodesBlank(ns.tail);
    }
  }

  // ---- positions ascend ----

  lemma {:induction false} AscendingAppend(a: seq<Op>, b: seq<Op>, lo: nat, mid: nat, hi: nat)
    requires Ascending(a, lo, mid) && Ascending(b, mid, hi)
    ensures Ascending(a + b, lo, hi)
    decreases |a|
  {
    if a == [] {
      assert a + b == b;
    } else {
      assert (a + b)[1..] == a[1..] + b;
      AscendingAppend(a[1..], b, a[0].pos, mid, hi);
    }
  }

  lemma {:induction false} AscendingWiden(ops: seq<Op>, lo: nat, from: nat, to: nat, hi: nat)
    requires lo <= from && Ascending(ops, from, to) && to <= hi
    ensures Ascending(ops, lo, hi)
    decreases |ops|
  {
    if ops != [] {
      AscendingWiden(ops[1..], ops[0].pos, ops[0].pos, to, hi);
    }
  }

  lemma OneAscends(op: Op, rest: seq<Op>, hi: nat)
    requires Ascending(rest, op.pos, hi)
    ensures Ascending([op] + rest, op.pos, hi)
  {
    assert ([op] + rest)[1..] == rest;
  }

  lemma {:induction false} AttrsAscend(attrs: seq<Attr>, path: seq<nat>, pos: nat)
    ensures Ascending(AttrsOps(attrs, path, pos), pos, pos + |AttrsHtml(attrs)|)
    decreases |attrs|
  {
    hide Ascending; hide AttrsOps; hide AttrsHtml; hide AttrHtml; hide AttrText; hide SiteText;
    AttrsUnfold(attrs, path, pos, Blank());
    if attrs == [] {
      NoneAscend(pos);
    } else {
      var a, next, end := attrs[0], pos + |AttrHtml(attrs[0])|, pos + |AttrsHtml(attrs)|;
      var rest := AttrsOps(attrs[1..], path, next);
      AttrsAscend(attrs[1..], path, next);
      AscendingWiden(rest, pos, next, end, end);
      if a.Dynamic? {
        OneAscends(Op(ToAttr(a.name), path, a.parts, pos), rest, end);
      } else {
        assert [] + rest == rest;
      }
    }
  }

  /** Every operation of an element lies within the element's own HTML, in order. */
  lemma {:induction false} ElemAscends(e: Elem, path: seq<nat>, pos: nat)
    ensures Ascending(ElemOps(e, path, pos), pos, pos + |ElemHtml(e)|)
    decreases e
  {
    hide Ascending; hide AttrsOps; hide AttrsHtml; hide NodesOps; hide NodesHtml;
    var p, q, end := pos + 1 + |e.tag|, pos + |OpenHtml(e)|, pos + |ElemHtml(e)|;
    var outer := AttrsOps(e.attrs, path, p);
    AttrsAscend(e.attrs, path, p);
    AscendingWiden(outer, pos, p, p + |AttrsHtml(e.attrs)|, q);
    if e.close.Void? {
      assert outer + [] == outer;
    } else {
      NodesAscend(e.nodes, path, 0, q);
      var inner := NodesOps(e.nodes, path, 0, q);
      AscendingWiden(inner, q, q, q + |NodesHtml(e.nodes)|, end);
      AscendingAppend(outer, inner, pos, q, end);
    }
  }

  lemma {:induction false} NodesAscend(ns: Nodes, path: seq<nat>, k: nat, pos: nat)
    ensures Ascending(NodesOps(ns, path, k, pos), pos, pos + |NodesHtml(ns)|)
    decreases ns
  {
    hide Ascending; hide ElemOps; hide ElemHtml; hide NodesOps; hide NodesHtml;
    NodesUnfold(ns, path, k, pos);
    match ns
    case Nil =>
      NoneAscend(pos);
    case Cons(Text(run), rest) =>
      NodesAscend(rest, path, k, pos + |run|);
      AscendingWiden(NodesOps(rest, path, k, pos + |run|), pos, pos + |run|, pos + |NodesHtml(ns)|,
        pos + |NodesHtml(ns)|);
    case Cons(Dyn(parts), rest) =>
      NodesAscend(rest, path, k, pos);
      OneAscends(Op(ToText, path, parts, pos), NodesOps(rest, path, k, pos), pos + |NodesHtml(rest)|);
    case Cons(Child(e), rest) =>
      var next := pos + |ElemHtml(e)|;
      ElemAscends(e, path + [k], pos);
      NodesAscend(rest, path, k + 1, next);
      AscendingAppend(ElemOps(e, path + [k], pos), NodesOps(rest, path, k + 1, next), pos, next, pos + |NodesHtml(ns)|);
  }

  lemma NodesUnfold(ns: Nodes, path: seq<nat>, k: nat, pos: nat)
    ensures NodesHtml(ns) == if ns.Nil? then "" else NodeHtml(ns.head) + NodesHtml(ns.tail)
    ensures NodesOps(ns, path, k, pos)
         == match ns
            case Nil => []
            case Cons(Text(run), rest) => NodesOps(rest, path, k, pos + |run|)
            case Cons(Dyn(parts), rest) => [Op(ToText, path, parts, pos)] + NodesOps(rest, path, k, pos)
            case Cons(Child(e), rest) => ElemOps(e, path + [k], pos) + NodesOps(rest, path, k + 1, pos + |ElemHtml(e)|)
  {
  }

  lemma NoneAscend(pos: nat)
    ensures Ascending([], pos, pos)
  {
  }

  // ---- the woven text ----

  function OpText(op: Op, fill: Fill): string {
    match op.target
    case ToAttr(name) => SiteText(name, fill(op.parts, true))
    case ToText => RunText(fill(op.parts, false))
  }

  /** html[lo..hi] with each operation's text at its position. */
  function Weave(html: string, ops: seq<Op>, lo: nat, hi: nat, fill: Fill): string
    requires Ascending(ops, lo, hi) && hi <= |html|
    decreases |ops|
  {
    AscendingBounds(ops, lo, hi);
    if ops == [] then html[lo..hi]
    else html[lo..ops[0].pos] + OpText(ops[0], fill) + Weave(html, ops[1..], ops[0].pos, hi, fill)
  }

  lemma {:induction false} WeaveAppend(html: string, a: seq<Op>, b: seq<Op>, lo: nat, mid: nat, hi: nat, fill: Fill)
    requires Ascending(a, lo, mid) && Ascending(b, mid, hi) && hi <= |html|
    ensures mid <= hi && Ascending(a + b, lo, hi)
    ensures Weave(html, a + b, lo, hi, fill) == Weave(html, a, lo, mid, fill) + Weave(html, b, mid, hi, fill)
    decreases |a|
  {
    hide OpText;
    AscendingAppend(a, b, lo, mid, hi);
    AscendingBounds(a, lo, mid);
    AscendingBounds(b, mid, hi);
    if a == [] {
      assert a + b == b;
      WeaveSlide(html, b, lo, mid, hi, fill);
    } else {
      assert (a + b)[0] == a[0] && (a + b)[1..] == a[1..] + b;
      WeaveAppend(html, a[1..], b, a[0].pos, mid, hi, fill);
      Regroup(html[lo..a[0].pos], OpText(a[0], fill), Weave(html, a[1..], a[0].pos, mid, fill),
        Weave(html, b, mid, hi, fill));
    }
  }

  lemma Regroup(a: string, b: string, c: string, d: string)
    ensures a + b + (c + d) == a + b + c + d
    ensures a + b + c + d == a + (b + c + d)
  {
  }

  lemma Cut(s: string, lo: nat, mid: nat, hi: nat)
    requires lo <= mid <= hi <= |s|
    ensures s[lo..hi] == s[lo..mid] + s[mid..hi]
  {
  }

  lemma WeaveSlide(html: string, b: seq<Op>, lo: nat, mid: nat, hi: nat, fill: Fill)
    requires lo <= mid && Ascending(b, mid, hi) && hi <= |html|
    ensures mid <= hi && Ascending(b, lo, hi)
    ensures Weave(html, b, lo, hi, fill) == html[lo..mid] + Weave(html, b, mid, hi, fill)
  {
    hide OpText;
    AscendingBounds(b, mid, hi);
    AscendingWiden(b, lo, mid, hi, hi);
    if b == [] {
      Cut(html, lo, mid, hi);
    } else {
      var p := b[0].pos;
      Cut(html, lo, mid, p);
      Regroup(html[lo..mid], html[mid..p], OpText(b[0], fill), Weave(html, b[1..], p, hi, fill));
    }
  }

  lemma WeaveOne(html: string, op: Op, fill: Fill)
    requires op.pos <= |html|
    ensures Ascending([op], op.pos, op.pos)
    ensures Weave(html, [op], op.pos, op.pos, fill) == OpText(op, fill)
  {
    assert [op][1..] == [];
    var t := OpText(op, fill);
    assert html[op.pos..op.pos] + t + html[op.pos..op.pos] == t;
  }

  lemma {:induction false} WeaveAttrs(html: string, attrs: seq<Attr>, path: seq<nat>, pos: nat, fill: Fill)
    requires At(html, AttrsHtml(attrs), pos)
    ensures Ascending(AttrsOps(attrs, path, pos), pos, pos + |AttrsHtml(attrs)|)
    ensures Weave(html, AttrsOps(attrs, path, pos), pos, pos + |AttrsHtml(attrs)|, fill) == AttrsText(attrs, fill)
    decreases |attrs|
  {
    hide Ascending; hide Weave; hide SiteText; hide At; hide AttrsOps; hide AttrsHtml; hide AttrsText; hide AttrHtml;
    AttrsUnfold(attrs, path, pos, fill);
    AttrsAscend(attrs, path, pos);
    AtSlice(html, AttrsHtml(attrs), pos);
    if attrs == [] {
      WeaveNone(html, pos, pos, fill);
      assert html[pos..pos] == "";
    } else {
      var a := attrs[0];
      var next, end := pos + |AttrHtml(a)|, pos + |AttrsHtml(attrs)|;
      var rest := AttrsOps(attrs[1..], path, next);
      Tail(html, AttrHtml(a), AttrsHtml(attrs[1..]), pos);
      WeaveAttrs(html, attrs[1..], path, next, fill);
      if a.Dynamic? {
        var op := Op(ToAttr(a.name), path, a.parts, pos);
        WeaveOne(html, op, fill);
        WeaveAppend(html, [op], rest, pos, next, end, fill);
      } else {
        WeaveSlide(html, rest, pos, next, end, fill);
        AtSlice(html, AttrHtml(a), pos);
        assert [] + rest == rest;
      }
    }
  }

  lemma AttrsUnfold(attrs: seq<Attr>, path: seq<nat>, pos: nat, fill: Fill)
    ensures attrs == [] ==> AttrsHtml(attrs) == "" && AttrsText(attrs, fill) == "" && AttrsOps(attrs, path, pos) == []
    ensures attrs != [] ==>
      var a, next := attrs[0], pos + |AttrHtml(attrs[0])|;
      AttrsHtml(attrs) == AttrHtml(a) + AttrsHtml(attrs[1..])
      && AttrsText(attrs, fill) == AttrText(a, fill) + AttrsText(attrs[1..], fill)
      && AttrsOps(attrs, path, pos)
      == (if a.Dynamic? then [Op(ToAttr(a.name), path, a.parts, pos)] else []) + AttrsOps(attrs[1..], path, next)
      && (a.Dynamic? ==> AttrHtml(a) == "" && AttrText(a, fill) == SiteText(a.name, fill(a.parts, true)))
      && (!a.Dynamic? ==> AttrText(a, fill) == AttrHtml(a))
  {
  }

  lemma WeaveNone(html: string, lo: nat, hi: nat, fill: Fill)
    requires lo <= hi <= |html|
    ensures Ascending([], lo, hi) && Weave(html, [], lo, hi, fill) == html[lo..hi]
  {
  }

  lemma AtSlice(html: string, s: string, pos: nat)
    requires At(html, s, pos)
    ensures pos + |s| <= |html| && html[pos..pos + |s|] == s
  {
  }

  /** Where a concatenation stands, both halves stand. */
  lemma Tail(html: string, a: string, b: string, pos: nat)
    requires At(html, a + b, pos)
    ensures At(html, a, pos) && At(html, b, pos + |a|)
  {
    var s := html[pos..pos + |a + b|];
    assert html[pos..pos + |a|] == s[..|a|] == a;
    assert html[pos + |a|..pos + |a| + |b|] == s[|a|..] == b;
  }

  lemma WeaveAround(html: string, ops: seq<Op>, lo: nat, from: nat, to: nat, hi: nat, fill: Fill)
    requires lo <= from && Ascending(ops, from, to) && to <= hi <= |html|
    ensures from <= to && Ascending(ops, lo, hi)
    ensures Weave(html, ops, lo, hi, fill) == html[lo..from] + Weave(html, ops, from, to, fill) + html[to..hi]
  {
    hide Weave;
    AscendingBounds(ops, from, to);
    AscendingWiden(ops, from, from, to, hi);
    WeaveNone(html, to, hi, fill);
    WeaveAppend(html, ops, [], from, to, hi, fill);
    assert ops + [] == ops;
    WeaveSlide(html, ops, lo, from, hi, fill);
    var w := Weave(html, ops, from, to, fill);
    assert html[lo..from] + (w + html[to..hi]) == html[lo..from] + w + html[to..hi];
  }

  /** The opening tag, from its angle bracket through its end. */
  lemma WeaveOpen(html: string, e: Elem, path: seq<nat>, pos: nat, fill: Fill)
    requires At(html, OpenHtml(e), pos)
    ensures var outer, q := AttrsOps(e.attrs, path, pos + 1 + |e.tag|), pos + |OpenHtml(e)|;
            q <= |html| && Ascending(outer, pos, q)
            && Weave(html, outer, pos, q, fill) == "<" + e.tag + AttrsText(e.attrs, fill) + TagEnd(e.close)
  {
    hide Ascending; hide Weave; hide AttrsOps; hide AttrsHtml; hide AttrsText; hide At;
    var p, r, q := pos + 1 + |e.tag|, pos + 1 + |e.tag| + |AttrsHtml(e.attrs)|, pos + |OpenHtml(e)|;
    assert OpenHtml(e) == "<" + e.tag + AttrsHtml(e.attrs) + TagEnd(e.close);
    Tail(html, "<" + e.tag + AttrsHtml(e.attrs), TagEnd(e.close), pos);
    Tail(html, "<" + e.tag, AttrsHtml(e.attrs), pos);
    AtSlice(html, "<" + e.tag, pos);
    AtSlice(html, TagEnd(e.close), r);
    WeaveAttrs(html, e.attrs, path, p, fill);
    WeaveAround(html, AttrsOps(e.attrs, path, p), pos, p, r, q, fill);
  }

  /** Merging an element's operations into its HTML gives the element with its sites filled in. */
  lemma {:induction false} WeaveElem(html: string, e: Elem, path: seq<nat>, pos: nat, fill: Fill)
    requires At(html, ElemHtml(e), pos)
    ensures Ascending(ElemOps(e, path, pos), pos, pos + |ElemHtml(e)|) && pos + |ElemHtml(e)| <= |html|
    ensures Weave(html, ElemOps(e, path, pos), pos, pos + |ElemHtml(e)|, fill) == ElemText(e, fill)
    decreases e
  {
    hide Ascending; hide Weave; hide AttrsOps; hide AttrsHtml; hide AttrsText; hide NodesOps; hide NodesHtml;
    hide NodesText;
    hide OpenHtml; hide TagEnd; hide At;
    ElemAscends(e, path, pos);
    AtSlice(html, ElemHtml(e), pos);
    var outer, q, end := AttrsOps(e.attrs, path, pos + 1 + |e.tag|), pos + |OpenHtml(e)|, pos + |ElemHtml(e)|;
    if e.close.Void? {
      WeaveOpen(html, e, path, pos, fill);
      assert outer + [] == outer;
    } else {
      var inner, b := NodesOps(e.nodes, path, 0, q), q + |NodesHtml(e.nodes)|;
      Tail(html, OpenHtml(e) + NodesHtml(e.nodes), CloseHtml(e.tag), pos);
      Tail(html, OpenHtml(e), NodesHtml(e.nodes), pos);
      AtSlice(html, CloseHtml(e.tag), b);
      WeaveOpen(html, e, path, pos, fill);
      WeaveNodes(html, e.nodes, path, 0, q, fill);
      WeaveAround(html, inner, q, q, b, end, fill);
      assert html[q..q] == "";
      WeaveAppend(html, outer, inner, pos, q, end, fill);
      var open, body := "<" + e.tag + AttrsText(e.attrs, fill) + TagEnd(e.close), NodesText(e.nodes, fill);
      assert open + ("" + body + CloseHtml(e.tag)) == open + body + CloseHtml(e.tag);
    }
  }

  lemma {:induction false} WeaveNodes(html: string, ns: Nodes, path: seq<nat>, k: nat, pos: nat, fill: Fill)
    requires At(html, NodesHtml(ns), pos)
    ensures Ascending(NodesOps(ns, path, k, pos), pos, pos + |NodesHtml(ns)|) && pos + |NodesHtml(ns)| <= |html|
    ensures Weave(html, NodesOps(ns, path, k, pos), pos, pos + |NodesHtml(ns)|, fill) == NodesText(ns, fill)
    decreases ns
  {
    hide Ascending; hide Weave; hide ElemOps; hide ElemHtml; hide ElemText; hide NodesOps; hide NodesHtml; hide At;
    NodesUnfold(ns, path, k, pos);
    NodesAscend(ns, path, k, pos);
    AtSlice(html, NodesHtml(ns), pos);
    var end := pos + |NodesHtml(ns)|;
    if ns.Nil? {
      WeaveNone(html, pos, pos, fill);
    } else {
      NodesTextUnfold(ns, fill);
      var next := pos + |NodeHtml(ns.head)|;
      Tail(html, NodeHtml(ns.head), NodesHtml(ns.tail), pos);
      AtSlice(html, NodeHtml(ns.head), pos);
      match ns.head
      case Text(run) =>
        WeaveNodes(html, ns.tail, path, k, next, fill);
        WeaveSlide(html, NodesOps(ns.tail, path, k, next), pos, next, end, fill);
      case Dyn(parts) =>
        var op := Op(ToText, path, parts, pos);
        WeaveNodes(html, ns.tail, path, k, pos, fill);
        WeaveOne(html, op, fill);
        WeaveAppend(html, [op], NodesOps(ns.tail, path, k, pos), pos, pos, end, fill);
      case Child(e) =>
        WeaveElem(html, e, path + [k], pos, fill);
        WeaveNodes(html, ns.tail, path, k + 1, next, fill);
        WeaveAppend(html, ElemOps(e, path + [k], pos), NodesOps(ns.tail, path, k + 1, next), pos, next, end, fill);
    }
  }

  lemma NodesTextUnfold(ns: Nodes, fill: Fill)
    requires ns.Cons?
    ensures NodesText(ns, fill) == NodeText(ns.head, fill) + NodesText(ns.tail, fill)
  {
  }

  /** The literal slices of the merge, with nothing at the dynamic sites, are the HTML itself. */
  lemma LiteralSlices(e: Elem)
    ensures Ascending(ElemOps(e, [], 0), 0, |ElemHtml(e)|)
    ensures Weave(ElemHtml(e), ElemOps(e, [], 0), 0, |ElemHtml(e)|, Blank()) == ElemHtml(e)
  {
    hide Weave; hide ElemOps; hide ElemHtml; hide ElemText; hide Ascending;
    assert ElemHtml(e)[0..0 + |ElemHtml(e)|] == ElemHtml(e);
    WeaveElem(ElemHtml(e), e, [], 0, Blank());
    ElemBlank(e);
  }

  // ---- running the merged writes ----

  lemma RunOp(op: Op, props: Props)
    requires AllTyped(op.parts, props)
    ensures RunWrites(OpWrites(op), props) == Some(OpText(op, Written(props)))
  {
    hide RunWrites; hide PartWrites; hide RenderedAll; hide LitWrite;
    match op.target {
      case ToText =>
        RunParts(op.parts, props, false);
      case ToAttr(name) =>
        var open, value := " " + name + "=" + QUOTE, RenderedAll(op.parts, props, true);
        RunParts(op.parts, props, true);
        RunLit(open, props);
        RunLit(QUOTE, props);
        RunAppend(LitWrite(open), PartWrites(op.parts, true), props);
        RunAppend(LitWrite(open) + PartWrites(op.parts, true), LitWrite(QUOTE), props);
    }
  }

  lemma {:induction false} RunMerge(html: string, ops: seq<Op>, cursor: nat, props: Props)
    requires Ascending(ops, cursor, |html|) && OpsTyped(ops, props)
    ensures RunWrites(Merge(html, ops, cursor), props) == Some(Weave(html, ops, cursor, |html|, Written(props)))
    decreases |ops|
  {
    hide RunWrites; hide OpWrites; hide LitWrite; hide OpText;
    AscendingBounds(ops, cursor, |html|);
    if ops == [] {
      RunLit(html[cursor..], props);
      assert html[cursor..] == html[cursor..|html|];
    } else {
      var slice, site, rest := LitWrite(html[cursor..ops[0].pos]), OpWrites(ops[0]), Merge(html, ops[1..], ops[0].pos);
      RunLit(html[cursor..ops[0].pos], props);
      RunOp(ops[0], props);
      RunMerge(html, ops[1..], ops[0].pos, props);
      RunAppend(slice, site, props);
      RunAppend(slice + site, rest, props);
    }
  }

  /** The native lowering writes the element itself, its sites filled with the rendered props. */
  lemma RenderIsText(e: Elem, props: Props)
    requires OpsTyped(ElemOps(e, [], 0), props)
    ensures Ascending(ElemOps(e, [], 0), 0, |ElemHtml(e)|)
    ensures RunWrites(Merge(ElemHtml(e), ElemOps(e, [], 0), 0), props) == Some(ElemText(e, Written(props)))
  {
    hide RunWrites; hide Merge; hide Weave; hide ElemOps; hide ElemHtml; hide ElemText; hide Ascending; hide OpsTyped;
    assert ElemHtml(e)[0..0 + |ElemHtml(e)|] == ElemHtml(e);
    WeaveElem(ElemHtml(e), e, [], 0, Written(props));
    RunMerge(ElemHtml(e), ElemOps(e, [], 0), 0, props);
  }
}
