/** Markup on which the two lowerings part, read by the scanner and shown by the browser. */
module Witnesses {
  import opened Wrappers
  import opened Markup
  import opened Lowering
  import opened Escapes
  import opened Html
  import opened Painting
  import opened Agreement
  import opened Divergence
  import opened Components
  import opened Edges
  import opened Sources
  import opened Reading
  import opened Trees

  const X: Part := Ident("x", "string", false)

  /** A placeholder of a text, as an author would write it. */
  const HOLE: Slot := Slot(" ", "x", Some(Typing("", "", "s")), " ")

  lemma HoleOk()
    ensures SlotOk(HOLE) && SlotText(HOLE) == "{{ x:s }}" && SlotPart(HOLE) == X
  {
    assert Core(HOLE) == "x:s" && Inside(HOLE) == " x:s ";
  }

  lemma ReadsWhole(m: string, e: SElem)
    requires SElemOk(e) && ElemText(e) == m
    ensures m != "" && ReadElem(m, 0) == Some((ElemOf(e), |m|))
  {
    hide ReadElem; hide SElemOk; hide ElemText; hide ElemOf;
    AtStart(m, "");
    assert m + "" == m;
    ElemRead(m, 0, e);
  }

  /** An element with attributes, and content in tags without white space. */
  lemma Enclosed(tag: string, attrs: seq<SAttr>, nodes: SNodes, a: string, x: string)
    requires NameOk(tag) && tag[0] != '!' && !VoidName(tag)
    requires SAttrsOk(attrs) && (attrs != [] ==> attrs[0].gap != "") && AttrsText(attrs) == a
    requires SNodesOk(nodes) && !(AnyHole(nodes) && nodes.More?) && NodesText(nodes) == x
    ensures var e := SElem(tag, attrs, "", Content(nodes, "", ""));
      && SElemOk(e) && ElemOf(e) == Elem(tag, AttrsOf(attrs), Normal, NodesOf(nodes))
      && ElemText(e) == "<" + tag + a + ">" + x + "</" + tag + ">"
  {
    hide SNodesOk; hide AnyHole; hide NodesText; hide NodesOf; hide NameOk; hide VoidName; hide SAttrsOk;
    hide AttrsText; hide AttrsOf;
    TagsAround(tag, a, x);
  }

  lemma TagsAround(tag: string, a: string, x: string)
    ensures "<" + (tag + ((a + "") + (">" + (x + ("</" + ("" + tag + "" + ">"))))))
         == "<" + tag + a + ">" + x + "</" + tag + ">"
  {
    assert "" + tag + "" == tag && a + "" == a;
  }

  lemma OneRun(r: SRun)
    requires RunOk(r)
    ensures SNodesOk(Last(r)) && NodesText(Last(r)) == RunText(r) && NodesOf(Last(r)) == RunOf(r)
  {
    hide RunOk; hide RunText; hide RunOf;
  }

  lemma NoAttributes()
    ensures SAttrsOk([]) && AttrsText([]) == "" && AttrsOf([]) == []
  {
  }

  lemma Names()
    ensures NameOk("p") && NameOk("a") && !VoidName("p") && !VoidName("a")
  {
  }

  // ---- a static escape ----

  const AMPERSAND: string := "<p>&lt;{{ x:s }}</p>"

  function AmpersandElem(): Elem {
    Elem("p", [], Normal, Cons(Dyn([Lit("&lt;"), X]), Nil))
  }

  /** A run of characters and the placeholder. */
  lemma MixedRun(text: string)
    requires text != "" && '<' !in text && NoPair(text, '{') && '\n' !in text && text[|text| - 1] != '{'
    ensures var r := SRun("", [Chars(text), Hole(HOLE)], "");
      RunOk(r) && RunText(r) == text + "{{ x:s }}" && RunOf(r) == Cons(Dyn([Lit(text), X]), Nil)
  {
    hide SlotOk; hide SlotText; hide SlotPart; hide NoPair;
    HoleOk();
    var bits := [Chars(text), Hole(HOLE)];
    var s := text + "{{ x:s }}";
    assert bits[1..] == [Hole(HOLE)] && bits[1..][1..] == [];
    FirstBit(bits);
    FirstBit(bits[1..]);
    assert BitsText(bits[1..]) == "{{ x:s }}" + "";
    assert BitsText(bits) == s;
    assert BitOk(bits[0]) && BitOk(bits[1]) && OpensNone(text) && bits[1].Hole?;
    assert BitsParts(bits) == [Lit(text), X];
    assert "" + s + "" == s;
    Unbroken(s);
  }

  lemma Unbroken(s: string)
    requires '\n' !in s
    ensures LeadKept(s) && TailKept(s)
  {
  }

  lemma AmpersandText()
    ensures "&lt;" + "{{ x:s }}" == "&lt;{{ x:s }}"
    ensures "<" + "p" + "" + ">" + "&lt;{{ x:s }}" + "</" + "p" + ">" == AMPERSAND
  {
  }

  lemma ReadAmpersand()
    ensures ReadElem(AMPERSAND, 0) == Some((AmpersandElem(), |AMPERSAND|))
  {
    hide ReadElem; hide RunOk; hide RunText; hide RunOf; hide SElemOk; hide ElemText; hide ElemOf; hide NodesText;
    hide AnyHole; hide SNodesOk; hide NodesOf; hide NameOk; hide VoidName; hide AttrsText; hide SAttrsOk; hide AttrsOf;
    var r := SRun("", [Chars("&lt;"), Hole(HOLE)], "");
    MixedRun("&lt;");
    OneRun(r);
    NoAttributes();
    Names();
    Enclosed("p", [], Last(r), "", "&lt;{{ x:s }}");
    AmpersandText();
    ReadsWhole(AMPERSAND, SElem("p", [], "", Content(Last(r), "", "")));
  }

  /** The scanner takes this markup, and for no value does the browser show for its bytes what it paints. */
  lemma AmpersandShown(props: Props)
    requires "x" in props && props["x"].Str?
    ensures var e := AmpersandElem();
      ReadElem(AMPERSAND, 0) == Some((e, |AMPERSAND|))
      && RenderedBytes(e, props).Some? && PaintedTree(e, props).Some?
      && Parse(RenderedBytes(e, props).value) != PaintedTree(e, props)
  {
    hide ReadElem; hide Parse; hide RenderedBytes; hide PaintedTree; hide Agrees;
    ReadAmpersand();
    AmpersandDiverges(props);
    var e := AmpersandElem();
    assert RawFree([Lit("&lt;"), X]);
    MarkupAgrees(AMPERSAND, 0, props);
  }

  // ---- one name twice ----

  const DUPLICATE: string := "<p a=\"1\" a={{ x:s }}></p>"

  function DuplicateElem(): Elem {
    Elem("p", [Static("a", "1"), Dynamic("a", [X])], Normal, Nil)
  }

  function DuplicateAttrs(): seq<SAttr> {
    [SQuoted(" ", "a", "", "", [Chars("1")]), SBraced(" ", "a", "", "", HOLE)]
  }

  lemma DuplicateAttrsOk()
    ensures SAttrsOk(DuplicateAttrs()) && AttrsText(DuplicateAttrs()) == " a=\"1\" a={{ x:s }}"
    ensures AttrsOf(DuplicateAttrs()) == [Static("a", "1"), Dynamic("a", [X])] && DuplicateAttrs()[0].gap != ""
  {
    hide SlotOk; hide SlotText; hide SlotPart; hide SAttrOk; hide AttrText; hide AttrOf; hide BitsText; hide HasHole;
    var attrs := DuplicateAttrs();
    StaticOne();
    DynamicX();
    assert attrs[1..] == [attrs[1]] && attrs[1..][1..] == [];
    assert AttrsText(attrs[1..]) == " " + ("a={{ x:s }}" + "");
    assert " " + ("a=\"1\"" + (" " + ("a={{ x:s }}" + ""))) == " a=\"1\" a={{ x:s }}";
  }

  lemma StaticOne()
    ensures var a := SQuoted(" ", "a", "", "", [Chars("1")]);
      SAttrOk(a) && AttrText(a) == "a=\"1\"" && AttrOf(a) == Static("a", "1")
  {
    var bits := [Chars("1")];
    Names();
    assert bits[1..] == [] && BitsText(bits) == "1" + "" == "1" && BitOk(bits[0]) && !HasHole(bits);
  }

  lemma DynamicX()
    ensures var a := SBraced(" ", "a", "", "", HOLE);
      SAttrOk(a) && AttrText(a) == "a={{ x:s }}" && AttrOf(a) == Dynamic("a", [X])
  {
    hide SlotOk; hide SlotText; hide SlotPart;
    HoleOk();
    Names();
    assert "a" + ("" + ("=" + ("" + "{{ x:s }}"))) == "a={{ x:s }}";
  }

  lemma DuplicateText()
    ensures "<" + "p" + " a=\"1\" a={{ x:s }}" + ">" + "" + "</" + "p" + ">" == DUPLICATE
  {
  }

  lemma ReadDuplicate()
    ensures ReadElem(DUPLICATE, 0) == Some((DuplicateElem(), |DUPLICATE|))
  {
    hide ReadElem; hide SAttrsOk; hide AttrsText; hide AttrsOf; hide DuplicateAttrs; hide ElemOf; hide ElemText;
    hide SElemOk; hide SNodesOk; hide NodesText; hide NodesOf; hide AnyHole; hide NameOk; hide VoidName; hide HasHole;
    hide RunOk; hide RunText; hide RunOf;
    var a := " a=\"1\" a={{ x:s }}";
    DuplicateAttrsOk();
    EmptyRun();
    OneRun(SRun("", [], ""));
    Names();
    Enclosed("p", DuplicateAttrs(), Last(SRun("", [], "")), a, "");
    DuplicateText();
    ReadsWhole(DUPLICATE, SElem("p", DuplicateAttrs(), "", Content(Last(SRun("", [], "")), "", "")));
  }

  lemma EmptyRun()
    ensures RunOk(SRun("", [], "")) && RunText(SRun("", [], "")) == "" && RunOf(SRun("", [], "")) == Nil
    ensures !HasHole([])
  {
    assert BitsText([]) == "";
  }

  /** The scanner takes this markup, and the browser shows for its bytes what it paints only for the value 1. */
  lemma DuplicateShown(props: Props)
    requires "x" in props && props["x"].Str?
    ensures var e := DuplicateElem();
      ReadElem(DUPLICATE, 0) == Some((e, |DUPLICATE|))
      && RenderedBytes(e, props).Some? && PaintedTree(e, props).Some?
      && (Parse(RenderedBytes(e, props).value) == PaintedTree(e, props) <==> props["x"].s == "1")
  {
    hide ReadElem; hide Parse; hide RenderedBytes; hide PaintedTree; hide Agrees;
    ReadDuplicate();
    assert AllTyped([X], props) && RawFree([X]);
    DuplicateDiverges("p", "a", "1", [X], props);
    assert [X][1..] == [] && props["x"].s + "" == props["x"].s && Plain([X], props) == props["x"].s;
    assert "1"[1..] == "" && Decode("1") == "1";
    MarkupAgrees(DUPLICATE, 0, props);
  }

  // ---- white space that is content ----

  const PIPE: string := "<p><a>x</a> | <a>y</a></p>"

  function Letter(c: char): Elem {
    Elem("a", [], Normal, Cons(Text([c]), Nil))
  }

  lemma PlainRun(text: string)
    requires text != "" && '<' !in text && NoPair(text, '{') && '\n' !in text
    ensures var r := SRun("", [Chars(text)], "");
      RunOk(r) && RunText(r) == text && RunOf(r) == Cons(Text(text), Nil) && !HasHole(r.bits)
  {
    hide NoPair;
    var bits := [Chars(text)];
    assert bits[1..] == [] && BitOk(bits[0]) && BitsText(bits) == text + "" == text;
    assert "" + text + "" == text;
    Unbroken(text);
  }

  /** Blanks between two elements are kept with the text between them. */
  lemma PipeKept()
    ensures ReadElem(PIPE, 0)
         == Some((Elem("p", [], Normal, Cons(Child(Letter('x')), Cons(Text(" | "), Cons(Child(Letter('y')), Nil)))),
                  |PIPE|))
  {
    hide ReadElem; hide RunOk; hide RunText; hide RunOf; hide HasHole; hide ElemText; hide ElemOf; hide SElemOk;
    hide SNodesOk; hide NodesText; hide NodesOf; hide AnyHole; hide NameOk; hide VoidName; hide AttrsText;
    hide SAttrsOk;
    hide AttrsOf; hide Letter;
    var x := LetterRead('x');
    var y := LetterRead('y');
    var nodes := PipeNodes(x, y);
    NoAttributes();
    Names();
    var text := "<a>x</a> | <a>y</a>";
    Enclosed("p", [], nodes, "", text);
    assert "<" + "p" + "" + ">" + text + "</" + "p" + ">" == PIPE;
    ReadsWhole(PIPE, SElem("p", [], "", Content(nodes, "", "")));
  }

  lemma PipeNodes(x: SElem, y: SElem) returns (nodes: SNodes)
    requires SElemOk(x) && SElemOk(y) && x.tag == y.tag == "a"
    requires ElemText(x) == "<a>x</a>" && ElemText(y) == "<a>y</a>"
    ensures SNodesOk(nodes) && !AnyHole(nodes) && NodesText(nodes) == "<a>x</a> | <a>y</a>"
    ensures NodesOf(nodes) == Cons(Child(ElemOf(x)), Cons(Text(" | "), Cons(Child(ElemOf(y)), Nil)))
  {
    hide RunOk; hide RunText; hide RunOf; hide HasHole; hide ElemText; hide ElemOf; hide SElemOk;
    var none, bar := SRun("", [], ""), SRun("", [Chars(" | ")], "");
    EmptyRun();
    PlainRun(" | ");
    var last := Last(none);
    var rest := More(bar, y, last);
    nodes := More(none, x, rest);
    assert SNodesOk(last) && !AnyHole(last) && NodesText(last) == "";
    assert SNodesOk(rest) && !AnyHole(rest) && NodesText(rest) == " | " + ("<a>y</a>" + "");
    assert NodesOf(rest) == Cons(Text(" | "), Cons(Child(ElemOf(y)), Nil));
    assert "" + ("<a>x</a>" + (" | " + ("<a>y</a>" + ""))) == "<a>x</a> | <a>y</a>";
  }

  lemma LetterRead(c: char) returns (s: SElem)
    requires c == 'x' || c == 'y'
    ensures SElemOk(s) && ElemOf(s) == Letter(c) && ElemText(s) == "<a>" + [c] + "</a>" && s.tag == "a"
  {
    hide RunOk; hide RunText; hide RunOf; hide SElemOk; hide ElemOf; hide ElemText; hide SNodesOk; hide NodesText;
    hide NodesOf; hide AnyHole; hide NameOk; hide VoidName; hide AttrsText; hide SAttrsOk; hide AttrsOf;
    PlainRun([c]);
    var r := SRun("", [Chars([c])], "");
    OneRun(r);
    NoAttributes();
    Names();
    Enclosed("a", [], Last(r), "", [c]);
    s := SElem("a", [], "", Content(Last(r), "", ""));
    assert "<" + "a" + "" + ">" + [c] + "</" + "a" + ">" == "<a>" + [c] + "</a>";
  }
}
