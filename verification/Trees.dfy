/**
 * The tree an element stands for once its sites are filled, and that parsing the
 * element's text yields this tree.
 */
module Trees {
  import opened Wrappers
  import opened Markup
  import opened Weaving
  import opened Escapes
  import opened Html

  // ---- what a scanned element looks like ----

  predicate NameOk(name: string) {
    name != "" && forall i :: 0 <= i < |name| ==> !EndsName(name[i])
  }

  predicate PartsAvoid(parts: seq<Part>, c: char) {
    forall i :: 0 <= i < |parts| && parts[i].Lit? ==> c !in parts[i].text
  }

  predicate AttrOk(a: Attr) {
    NameOk(a.name)
    && (a.Static? ==> '"' !in a.value)
    && (a.Dynamic? ==> PartsAvoid(a.parts, '"'))
  }

  predicate ElemOk(e: Elem) {
    NameOk(e.tag)
    && (forall i :: 0 <= i < |e.attrs| ==> AttrOk(e.attrs[i]))
    && (e.close.Void? <==> e.tag in VOID_TAGS)
    && (e.close.Void? ==> e.nodes == Nil)
    && NodesOk(e.nodes) && Separate(e.nodes)
  }

  /** Between two tags stands at most one run, and no run is empty. */
  predicate NodesOk(ns: Nodes) {
    match ns
    case Nil => true
    case Cons(Text(run), rest) => run != "" && '<' !in run && (rest.Nil? || rest.head.Child?) && NodesOk(rest)
    case Cons(Dyn(parts), rest) => PartsAvoid(parts, '<') && (rest.Nil? || rest.head.Child?) && NodesOk(rest)
    case Cons(Child(e), rest) => ElemOk(e) && NodesOk(rest)
  }

  /** HTML takes a tag name to begin with a letter. */
  predicate Lettered(e: Elem) {
    (e.tag != "" ==> IsLetter(e.tag[0])) && NodesLettered(e.nodes)
  }

  predicate NodesLettered(ns: Nodes) {
    ns.Cons? ==> (ns.head.Child? ==> Lettered(ns.head.elem)) && NodesLettered(ns.tail)
  }

  // ---- the tree ----

  function AttrsTree(attrs: seq<Attr>, fill: Fill): map<string, string> {
    if attrs == [] then map[] else AddAttr(attrs[0], fill, AttrsTree(attrs[1..], fill))
  }

  function AddAttr(a: Attr, fill: Fill, m: map<string, string>): map<string, string> {
    match a
    case Bare(name) => m[name := ""]
    case Static(name, value) => m[name := Decode(value)]
    case Dynamic(name, parts) => if fill(parts, true).None? then m else m[name := fill(parts, true).value]
  }

  function Tree(e: Elem, fill: Fill): Dom {
    El(e.tag, AttrsTree(e.attrs, fill), if e.close.Void? then DNil else Forest(e.nodes, fill))
  }

  function Forest(ns: Nodes, fill: Fill): Doms {
    match ns
    case Nil => DNil
    case Cons(Text(run), rest) => DCons(Txt(Decode(run)), Forest(rest, fill))
    case Cons(Dyn(parts), rest) => AddText(fill(parts, false), Forest(rest, fill))
    case Cons(Child(e), rest) => DCons(Tree(e, fill), Forest(rest, fill))
  }

  /** An empty text makes no node. */
  function AddText(value: Option<string>, rest: Doms): Doms {
    if value.None? || value.value == "" then rest else DCons(Txt(value.value), rest)
  }

  /** What a browser reads at the sites `fill` writes. */
  function Reading(fill: Fill): Fill {
    (parts, inAttr) => ReadOf(fill(parts, inAttr))
  }

  function ReadOf(v: Option<string>): Option<string> {
    if v.None? then None else Some(Decode(v.value))
  }

  // ---- sites ----

  /** A test of a dynamic site: its parts, and whether it is an attribute. */
  type Test = (seq<Part>, bool) -> bool

  predicate AttrsEach(attrs: seq<Attr>, test: Test) {
    forall i :: 0 <= i < |attrs| && attrs[i].Dynamic? ==> test(attrs[i].parts, true)
  }

  /** Every dynamic site of an element passes the test. */
  predicate Each(e: Elem, test: Test) {
    AttrsEach(e.attrs, test) && NodesEach(e.nodes, test)
  }

  predicate NodesEach(ns: Nodes, test: Test) {
    ns.Cons? ==>
      (ns.head.Dyn? ==> test(ns.head.parts, false))
      && (ns.head.Child? ==> Each(ns.head.elem, test))
      && NodesEach(ns.tail, test)
  }

  lemma {:induction false} EachWeaken(e: Elem, p: Test, q: Test)
    requires Each(e, p) && forall parts, b :: p(parts, b) ==> q(parts, b)
    ensures Each(e, q)
    decreases e
  {
    NodesWeaken(e.nodes, p, q);
  }

  lemma {:induction false} NodesWeaken(ns: Nodes, p: Test, q: Test)
    requires NodesEach(ns, p) && forall parts, b :: p(parts, b) ==> q(parts, b)
    ensures NodesEach(ns, q)
    decreases ns
  {
    if ns.Cons? {
      if ns.head.Child? {
        EachWeaken(ns.head.elem, p, q);
      }
      NodesWeaken(ns.tail, p, q);
    }
  }

  /** What is written at a site stays inside the site. */
  function Within(fill: Fill): Test {
    (parts, inAttr) => Avoids(fill(parts, inAttr), if inAttr then '"' else '<')
  }

  predicate Avoids(v: Option<string>, c: char) {
    v.Some? ==> c !in v.value
  }

  // ---- parsing the text yields the tree ----

  lemma Splits(s: string, a: string, b: string, p: nat)
    requires At(s, a + b, p)
    ensures p + |a| + |b| <= |s| && At(s, a, p) && At(s, b, p + |a|)
    ensures s[p..p + |a|] == a && s[p + |a|..p + |a| + |b|] == b
  {
    var t := s[p..p + |a + b|];
    assert s[p..p + |a|] == t[..|a|] == a;
    assert s[p + |a|..p + |a| + |b|] == t[|a|..] == b;
  }

  lemma CharsAt(s: string, a: string, p: nat)
    requires At(s, a, p)
    ensures p + |a| <= |s| && s[p..p + |a|] == a && forall i :: p <= i < p + |a| ==> s[i] == a[i - p]
  {
    assert forall i :: p <= i < p + |a| ==> s[p..p + |a|][i - p] == s[i];
  }

  lemma NameAt(s: string, name: string, p: nat)
    requires At(s, name, p) && NameOk(name) && p + |name| < |s| && EndsName(s[p + |name|])
    ensures NameEnd(s, p) == p + |name|
  {
    CharsAt(s, name, p);
    var n := NameEnd(s, p);
  }

  lemma UntilAt(s: string, text: string, c: char, p: nat)
    requires At(s, text, p) && c !in text && p + |text| < |s| && s[p + |text|] == c
    ensures Until(s, c, p) == p + |text|
  {
    CharsAt(s, text, p);
    var q := Until(s, c, p);
  }

  lemma BareParses(s: string, name: string, p: nat)
    requires At(s, " " + name, p) && NameOk(name)
    requires p + 1 + |name| < |s| && (s[p + 1 + |name|] == ' ' || s[p + 1 + |name|] == '>')
    ensures ParseAttrs(s, p) == Put(name, "", ParseAttrs(s, p + 1 + |name|))
  {
    hide At;
    Splits(s, " ", name, p);
    CharsAt(s, name, p + 1);
    CharsAt(s, " ", p);
    assert s[p + 1] == name[0];
    assert SpaceEnd(s, p + 1) == p + 1;
    NameAt(s, name, p + 1);
  }

  function Put(name: string, value: string, rest: Option<(map<string, string>, nat)>):
      Option<(map<string, string>, nat)>
  {
    if rest.None? then None else Some((rest.value.0[name := value], rest.value.1))
  }

  lemma QuotedLayout(s: string, name: string, value: string, p: nat)
    requires At(s, " " + name + "=" + QUOTE + value + QUOTE, p)
    ensures var n := p + 1 + |name|;
      n + 3 + |value| <= |s| && s[p] == ' ' && At(s, name, p + 1) && s[n] == '=' && s[n + 1] == '"'
        && At(s, value, n + 2)
      && s[n + 2 + |value|] == '"'
  {
    hide At;
    var n := p + 1 + |name|;
    Splits(s, " " + name + "=" + QUOTE + value, QUOTE, p);
    Splits(s, " " + name + "=" + QUOTE, value, p);
    Splits(s, " " + name + "=", QUOTE, p);
    Splits(s, " " + name, "=", p);
    Splits(s, " ", name, p);
    CharsAt(s, " ", p);
    CharsAt(s, "=", n);
    CharsAt(s, QUOTE, n + 1);
    CharsAt(s, QUOTE, n + 2 + |value|);
  }

  lemma QuotedParses(s: string, name: string, value: string, p: nat)
    requires At(s, " " + name + "=" + QUOTE + value + QUOTE, p) && NameOk(name) && '"' !in value
    ensures p + |name| + |value| + 4 <= |s|
    ensures ParseAttrs(s, p) == Put(name, Decode(value), ParseAttrs(s, p + |name| + |value| + 4))
  {
    hide Decode; hide At; hide ParseAttrs;
    var n := p + 1 + |name|;
    QuotedLayout(s, name, value, p);
    CharsAt(s, name, p + 1);
    CharsAt(s, value, n + 2);
    assert s[p + 1] == name[0];
    assert !EndsName(name[0]);
    NameAt(s, name, p + 1);
    UntilAt(s, value, '"', n + 2);
    QuotedRound(s, p, n, n + 2 + |value|);
  }

  /** The parser's step over a quoted attribute, from where its pieces stand. */
  lemma QuotedRound(s: string, p: nat, n: nat, q: nat)
    requires p + 1 < n && n + 2 <= q < |s| && s[p] == ' ' && !EndsName(s[p + 1]) && NameEnd(s, p + 1) == n
    requires s[n] == '=' && s[n + 1] == '"' && Until(s, '"', n + 2) == q
    ensures ParseAttrs(s, p) == Put(s[p + 1..n], Decode(s[n + 2..q]), ParseAttrs(s, q + 1))
  {
    hide Decode; hide NameEnd; hide Until;
    assert SpaceEnd(s, p + 1) == p + 1;
    assert SpaceEnd(s, p) == p + 1;
  }

  lemma EndParses(s: string, close: Close, p: nat)
    requires At(s, TagEnd(close), p)
    ensures ParseAttrs(s, p) == Some((map[], p + |TagEnd(close)| - 1))
  {
    CharsAt(s, TagEnd(close), p);
    if close == Void(true) {
      assert s[p] == ' ' && s[p + 1] == '/' && s[p + 2] == '>';
      assert SpaceEnd(s, p + 1) == p + 1;
      assert SpaceEnd(s, p) == p + 1;
    } else {
      assert s[p] == '>';
      assert SpaceEnd(s, p) == p;
    }
  }

  lemma AttrParses(s: string, a: Attr, fill: Fill, p: nat)
    requires At(s, AttrText(a, fill), p) && AttrOk(a) && AttrsEach([a], Within(fill))
    requires var q := p + |AttrText(a, fill)|; q < |s| && (s[q] == ' ' || s[q] == '>')
    ensures var rest := ParseAttrs(s, p + |AttrText(a, fill)|);
      ParseAttrs(s, p) == if rest.None? then None else Some((AddAttr(a, Reading(fill), rest.value.0), rest.value.1))
  {
    hide ParseAttrs; hide Decode; hide At;
    match a
    case Bare(name) => BareParses(s, name, p);
    case Static(name, value) => QuotedParses(s, name, value, p);
    case Dynamic(name, parts) =>
      assert [a][0] == a;
      if fill(parts, true).Some? {
        QuotedParses(s, name, fill(parts, true).value, p);
      }
  }

  /** The attributes of a tag, up to the tag's last character. */
  lemma {:induction false} AttrsParse(s: string, attrs: seq<Attr>, close: Close, fill: Fill, p: nat)
    requires At(s, AttrsText(attrs, fill) + TagEnd(close), p)
    requires forall i :: 0 <= i < |attrs| ==> AttrOk(attrs[i])
    requires AttrsEach(attrs, Within(fill))
    ensures ParseAttrs(s, p) == Some((AttrsTree(attrs, Reading(fill)),
      p + |AttrsText(attrs, fill)| + |TagEnd(close)| - 1))
    decreases |attrs|
  {
    hide ParseAttrs; hide Decode; hide At; hide TagEnd; hide AttrText; hide AddAttr; hide AttrOk; hide Reading;
    if attrs == [] {
      assert "" + TagEnd(close) == TagEnd(close);
      EndParses(s, close, p);
    } else {
      var a, rest := attrs[0], attrs[1..];
      var text, more := AttrText(a, fill), AttrsText(rest, fill) + TagEnd(close);
      assert AttrsText(attrs, fill) + TagEnd(close) == text + more;
      Splits(s, text, more, p);
      AttrsParse(s, rest, close, fill, p + |text|);
      AfterAttr(s, rest, close, fill, p + |text|);
      AttrParses(s, a, fill, p);
    }
  }

  lemma {:induction false} AfterAttr(s: string, attrs: seq<Attr>, close: Close, fill: Fill, p: nat)
    requires At(s, AttrsText(attrs, fill) + TagEnd(close), p)
    ensures p < |s| && (s[p] == ' ' || s[p] == '>')
    decreases |attrs|
  {
    hide At;
    var t := AttrsText(attrs, fill) + TagEnd(close);
    CharsAt(s, t, p);
    HeadOfAttrs(attrs, close, fill);
  }

  lemma {:induction false} HeadOfAttrs(attrs: seq<Attr>, close: Close, fill: Fill)
    ensures var t := AttrsText(attrs, fill) + TagEnd(close); t != "" && (t[0] == ' ' || t[0] == '>')
    decreases |attrs|
  {
    if attrs != [] {
      HeadOfAttrs(attrs[1..], close, fill);
      if AttrText(attrs[0], fill) == "" {
        assert AttrsText(attrs, fill) == AttrsText(attrs[1..], fill);
      } else {
        assert AttrText(attrs[0], fill)[0] == ' ';
      }
    }
  }

  // ---- elements ----

  lemma {:induction false} ElemParses(s: string, e: Elem, fill: Fill, p: nat)
    requires At(s, ElemText(e, fill), p) && ElemOk(e) && Lettered(e) && Each(e, Within(fill))
    ensures ParseElem(s, p) == Some((Tree(e, Reading(fill)), p + |ElemText(e, fill)|))
    decreases e
  {
    hide ParseAttrs; hide ParseNodes; hide At; hide AttrsText; hide NodesText; hide AttrsTree; hide Forest;
    hide Reading;
    hide NodesOk; hide NodesLettered; hide NodesEach; hide AttrsEach; hide AttrOk; hide TagEnd;
    var attrs := AttrsText(e.attrs, fill) + TagEnd(e.close);
    var n := p + 1 + |e.tag|;
    var q := n + |attrs|;
    if e.close.Void? {
      assert ElemText(e, fill) == "<" + e.tag + attrs + "";
      OpenParses(s, e, fill, "", p);
    } else {
      var body := NodesText(e.nodes, fill) + CloseHtml(e.tag);
      ElemSplit("<" + e.tag, AttrsText(e.attrs, fill), TagEnd(e.close), NodesText(e.nodes, fill), CloseHtml(e.tag));
      OpenParses(s, e, fill, body, p);
      NodesParse(s, e.nodes, e.tag, fill, q);
    }
  }

  lemma ElemSplit(a: string, b: string, c: string, d: string, e: string)
    ensures a + b + c + d + e == a + (b + c) + (d + e)
  {
    assert a + b + c == a + (b + c);
    assert a + (b + c) + d + e == a + (b + c) + (d + e);
  }

  lemma OpenParses(s: string, e: Elem, fill: Fill, body: string, p: nat)
    requires At(s, "<" + e.tag + (AttrsText(e.attrs, fill) + TagEnd(e.close)) + body, p)
    requires NameOk(e.tag) && IsLetter(e.tag[0]) && (forall i :: 0 <= i < |e.attrs| ==> AttrOk(e.attrs[i]))
    requires AttrsEach(e.attrs, Within(fill))
    ensures var n := p + 1 + |e.tag|; var q := n + |AttrsText(e.attrs, fill) + TagEnd(e.close)|;
      q + |body| <= |s| && s[p] == '<' && s[p + 1] == e.tag[0] && NameEnd(s, p + 1) == n && s[p + 1..n] == e.tag
      && ParseAttrs(s, n) == Some((AttrsTree(e.attrs, Reading(fill)), q - 1)) && At(s, body, q)
  {
    hide ParseAttrs; hide At; hide AttrsText; hide AttrsTree; hide Reading; hide AttrsEach; hide AttrOk; hide TagEnd;
    var attrs := AttrsText(e.attrs, fill) + TagEnd(e.close);
    var n := p + 1 + |e.tag|;
    Splits(s, "<" + e.tag + attrs, body, p);
    Splits(s, "<" + e.tag, attrs, p);
    Splits(s, "<", e.tag, p);
    CharsAt(s, "<", p);
    CharsAt(s, e.tag, p + 1);
    AfterAttr(s, e.attrs, e.close, fill, n);
    NameAt(s, e.tag, p + 1);
    AttrsParse(s, e.attrs, e.close, fill, n);
  }

  lemma {:induction false} NodesParse(s: string, ns: Nodes, tag: string, fill: Fill, p: nat)
    requires At(s, NodesText(ns, fill) + CloseHtml(tag), p)
    requires NodesOk(ns) && NodesLettered(ns) && NodesEach(ns, Within(fill)) && NameOk(tag)
    ensures ParseNodes(s, p, tag) == Some((Forest(ns, Reading(fill)), p + |NodesText(ns, fill)| + |CloseHtml(tag)|))
    decreases ns
  {
    hide ParseAttrs; hide ParseElem; hide At; hide ElemText; hide Tree; hide ElemOk; hide Lettered; hide Each;
    hide Decode;
    hide CloseHtml; hide ParseNodes;
    if ns.Nil? {
      assert "" + CloseHtml(tag) == CloseHtml(tag);
      CloseParses(s, tag, p);
    } else {
      var text, more := NodeText(ns.head, fill), NodesText(ns.tail, fill) + CloseHtml(tag);
      assert NodesText(ns, fill) + CloseHtml(tag) == text + more;
      Splits(s, text, more, p);
      NodesParse(s, ns.tail, tag, fill, p + |text|);
      match ns.head
      case Text(run) =>
        AfterRun(s, ns.tail, tag, fill, p + |text|);
        RunParses(s, run, tag, p);
      case Dyn(parts) =>
        AfterRun(s, ns.tail, tag, fill, p + |text|);
        DecodeEmpty(text);
        if text != "" {
          RunParses(s, text, tag, p);
        }
      case Child(e) =>
        ElemParses(s, e, fill, p);
        ChildHead(s, e, fill, p);
        ChildParses(s, tag, p);
    }
  }

  lemma DecodeEmpty(s: string)
    ensures Decode(s) == "" <==> s == ""
  {
  }

  lemma CloseParses(s: string, tag: string, p: nat)
    requires At(s, CloseHtml(tag), p) && NameOk(tag)
    ensures ParseNodes(s, p, tag) == Some((DNil, p + |CloseHtml(tag)|))
  {
    hide At; hide ParseElem;
    Splits(s, "</" + tag, ">", p);
    Splits(s, "</", tag, p);
    CharsAt(s, "</", p);
    CharsAt(s, ">", p + 2 + |tag|);
    forall i | 0 <= i < |tag|
      ensures tag[i] != '>'
    {
      assert !EndsName(tag[i]);
    }
    UntilAt(s, tag, '>', p + 2);
    assert Until(s, '<', p) == p;
  }

  lemma RunParses(s: string, run: string, tag: string, p: nat)
    requires At(s, run, p) && run != "" && '<' !in run && p + |run| < |s| && s[p + |run|] == '<'
    ensures var rest := ParseNodes(s, p + |run|, tag);
      ParseNodes(s, p, tag)
      == if rest.None? then None else Some((DCons(Txt(Decode(run)), rest.value.0), rest.value.1))
  {
    hide At; hide ParseElem; hide Decode;
    UntilAt(s, run, '<', p);
    CharsAt(s, run, p);
  }

  lemma ChildParses(s: string, tag: string, p: nat)
    requires p + 1 < |s| && s[p] == '<' && s[p + 1] != '/' && ParseElem(s, p).Some?
    ensures var child := ParseElem(s, p).value; var rest := ParseNodes(s, child.1, tag);
      ParseNodes(s, p, tag) == if rest.None? then None else Some((DCons(child.0, rest.value.0), rest.value.1))
  {
    hide ParseElem;
    assert Until(s, '<', p) == p;
  }

  lemma ChildHead(s: string, e: Elem, fill: Fill, p: nat)
    requires At(s, ElemText(e, fill), p) && ElemOk(e)
    ensures p + 1 < |s| && s[p] == '<' && s[p + 1] != '/'
  {
    hide At; hide AttrsText; hide NodesText; hide CloseHtml;
    var t := ElemText(e, fill);
    CharsAt(s, t, p);
    assert t[0] == '<' && t[1] == e.tag[0];
    assert !EndsName(e.tag[0]);
  }

  /** After a run comes a tag. */
  lemma AfterRun(s: string, ns: Nodes, tag: string, fill: Fill, p: nat)
    requires At(s, NodesText(ns, fill) + CloseHtml(tag), p)
    requires ns.Nil? || ns.head.Child?
    ensures p < |s| && s[p] == '<'
  {
    hide At; hide AttrsText; hide TagEnd;
    var t := NodesText(ns, fill) + CloseHtml(tag);
    CharsAt(s, t, p);
    if ns.Cons? {
      NodesTextUnfold(ns, fill);
      assert ElemText(ns.head.elem, fill)[0] == '<';
    }
    assert t[0] == '<';
  }

  /** Parsing the text of a scanned element gives the element's tree, each site read back. */
  lemma TextParses(e: Elem, fill: Fill)
    requires ElemOk(e) && Lettered(e) && Each(e, Within(fill))
    ensures Parse(ElemText(e, fill)) == Some(Tree(e, Reading(fill)))
  {
    hide ElemText; hide Tree; hide ParseElem;
    var s := ElemText(e, fill);
    assert s[0..0 + |s|] == s;
    ElemParses(s, e, fill, 0);
  }
}
