/**
 * The one-pass markup scanner: it advances an index over the markup while appending
 * to the static HTML, the operations, the element path and the prop list.
 */
module Scanner {
  import opened Wrappers
  import opened Markup

  datatype Prop = Prop(name: string, ptype: string)

  // ---- the props of a component ----

  predicate Known(props: seq<Prop>, name: string) {
    exists k :: 0 <= k < |props| && props[k].name == name
  }

  /** A prop is registered under the type of its first placeholder. */
  function Register(props: seq<Prop>, p: Part): seq<Prop> {
    if p.Lit? || Known(props, p.name) then props else props + [Prop(p.name, p.ptype)]
  }

  function RegisterAll(props: seq<Prop>, parts: seq<Part>): seq<Prop>
    decreases |parts|
  {
    if parts == [] then props else RegisterAll(Register(props, parts[0]), parts[1..])
  }

  function RegisterAttr(props: seq<Prop>, a: Attr): seq<Prop> {
    if a.Dynamic? then RegisterAll(props, a.parts) else props
  }

  function RegisterAttrs(props: seq<Prop>, attrs: seq<Attr>): seq<Prop>
    decreases |attrs|
  {
    if attrs == [] then props else RegisterAttrs(RegisterAttr(props, attrs[0]), attrs[1..])
  }

  function RegisterElem(props: seq<Prop>, e: Elem): seq<Prop>
    decreases e, 0
  {
    RegisterNodes(RegisterAttrs(props, e.attrs), e.nodes)
  }

  function RegisterNodes(props: seq<Prop>, ns: Nodes): seq<Prop>
    decreases ns, 1
  {
    match ns
    case Nil => props
    case Cons(Text(_), rest) => RegisterNodes(props, rest)
    case Cons(Dyn(parts), rest) => RegisterNodes(RegisterAll(props, parts), rest)
    case Cons(Child(e), rest) => RegisterNodes(RegisterElem(props, e), rest)
  }

  lemma {:induction false} RegisterSplit(props: seq<Prop>, a: seq<Part>, b: seq<Part>)
    ensures RegisterAll(props, a + b) == RegisterAll(RegisterAll(props, a), b)
    decreases |a|
  {
    if a == [] {
      assert a + b == b;
    } else {
      assert (a + b)[1..] == a[1..] + b;
      RegisterSplit(Register(props, a[0]), a[1..], b);
    }
  }

  lemma RegisterPush(props: seq<Prop>, parts: seq<Part>, p: Part)
    ensures RegisterAll(props, parts + [p]) == Register(RegisterAll(props, parts), p)
  {
    RegisterSplit(props, parts, [p]);
    var rest := RegisterAll(props, parts);
    assert [p][1..] == [];
    assert RegisterAll(rest, [p]) == RegisterAll(Register(rest, p), []);
  }

  /** One round of splitting: a literal if there is text before the placeholder, then the placeholder. */
  lemma SplitRound(run: string, k: nat, open: nat)
    requires k <= |run| && IndexOf(run, "{{", k) == Some(open)
    ensures ReadPlaceholder(run, open).None? ==> SplitParts(run, k).None?
    ensures ReadPlaceholder(run, open).Some? ==>
              var (p, end) := ReadPlaceholder(run, open).value;
              var rest := SplitParts(run, end);
              SplitParts(run, k) == if rest.None? then None else
                Some((if open > k then [Lit(run[k..open])] else []) + [p] + rest.value)
  {
  }

  lemma SplitEnd(run: string, k: nat)
    requires k <= |run| && IndexOf(run, "{{", k).None?
    ensures SplitParts(run, k) == Some(if k < |run| then [Lit(run[k..])] else [])
  {
  }

  // ---- the scanner ----

  class Scanner {
    const m: string
    var i: nat
    var html: string
    var ops: seq<Op>
    var path: seq<nat>
    var props: seq<Prop>

    constructor (m: string)
      ensures this.m == m && i == 0 && html == "" && ops == [] && path == [] && props == []
    {
      this.m, i, html, ops, path, props := m, 0, "", [], [], [];
    }

    method SkipSpace()
      requires i <= |m|
      modifies this`i
      ensures i == SpaceEnd(m, old(i))
    {
      while i < |m| && IsSpace(m[i])
        invariant i <= |m| && SpaceEnd(m, i) == SpaceEnd(m, old(i))
      {
        i := i + 1;
      }
    }

    method TagName() returns (name: string)
      requires i <= |m|
      modifies this`i
      ensures i == NameEnd(m, old(i)) && name == m[old(i)..i]
    {
      var n0 := i;
      while i < |m|
        invariant n0 <= i <= |m| && NameEnd(m, i) == NameEnd(m, n0)
      {
        if EndsName(m[i]) { break; }
        i := i + 1;
      }
      name := m[n0..i];
    }

    method RegisterPart(p: Part)
      requires p.Ident?
      modifies this`props
      ensures props == Register(old(props), p)
    {
      var k := 0;
      while k < |props|
        invariant 0 <= k <= |props| && props == old(props)
        invariant forall j :: 0 <= j < k ==> props[j].name != p.name
      {
        if props[k].name == p.name { return; }
        k := k + 1;
      }
      props := props + [Prop(p.name, p.ptype)];
    }

    /** At an opening brace pair of src: reads and registers the placeholder. */
    method Placeholder(src: string, k: nat) returns (ok: bool, p: Part, end: nat)
      modifies this`props
      ensures ok <==> ReadPlaceholder(src, k).Some?
      ensures ok ==> (p, end) == ReadPlaceholder(src, k).value && props == Register(old(props), p)
      ensures !ok ==> props == old(props)
    {
      var close := IndexOf(src, "}}", k + 2);
      if close.None? { return false, Lit(""), 0; }
      var ph := Trim(src[k + 2..close.value], " \t\r\n");
      p := ReadIdent(ph);
      RegisterPart(p);
      return true, p, close.value + 2;
    }

    /** Splits a run into parts, registering its placeholders in order. */
    method Split(run: string) returns (ok: bool, parts: seq<Part>)
      modifies this`props
      ensures ok <==> SplitParts(run, 0).Some?
      ensures ok ==> parts == SplitParts(run, 0).value && props == RegisterAll(old(props), parts)
    {
      hide SplitParts; hide RegisterAll; hide ReadPlaceholder;
      parts := [];
      var last := 0;
      ghost var whole := SplitParts(run, 0);
      RegisterNone(props);
      while true
        invariant 0 <= last <= |run|
        invariant whole.Some? <==> SplitParts(run, last).Some?
        invariant whole.Some? ==> whole.value == parts + SplitParts(run, last).value
        invariant props == RegisterAll(old(props), parts)
        decreases |run| - last
      {
        var open := IndexOf(run, "{{", last);
        if open.None? { break; }
        SplitRound(run, last, open.value);
        if open.value > last {
          RegisterPush(old(props), parts, Lit(run[last..open.value]));
          parts := parts + [Lit(run[last..open.value])];
        }
        var ok1, p, end := Placeholder(run, open.value);
        if !ok1 { return false, []; }
        RegisterPush(old(props), parts, p);
        parts := parts + [p];
        last := end;
      }
      SplitEnd(run, last);
      if last < |run| {
        RegisterPush(old(props), parts, Lit(run[last..]));
        parts := parts + [Lit(run[last..])];
      }
      return true, parts;
    }

    // ---- attributes ----

    method Value(name: string) returns (ok: bool, ghost a: Attr)
      requires i <= |m|
      modifies this`i, this`html, this`ops, this`props
      ensures ok <==> ReadValue(m, name, old(i)).Some?
      ensures ok ==> (a, i) == ReadValue(m, name, old(i)).value && html == old(html) + AttrHtml(a)
      ensures ok ==> ops == old(ops) + AttrsOps([a], path, |old(html)|) && props == RegisterAttr(old(props), a)
    {
      hide ReadValue; hide AttrsOps; hide AttrHtml; hide RegisterAttr;
      NoValue(m, name, i);
      if i < |m| && m[i] == '"' {
        ok, a := Quoted(name);
      } else if i + 1 < |m| && m[i] == '{' && m[i + 1] == '{' {
        ok, a := Braced(name);
      } else {
        return false, Bare(name);
      }
    }

    /** A quoted value: static, or mixed with placeholders. */
    method Quoted(name: string) returns (ok: bool, ghost a: Attr)
      requires i < |m| && m[i] == '"'
      modifies this`i, this`html, this`ops, this`props
      ensures ok <==> ReadValue(m, name, old(i)).Some?
      ensures ok ==> (a, i) == ReadValue(m, name, old(i)).value && html == old(html) + AttrHtml(a)
      ensures ok ==> ops == old(ops) + AttrsOps([a], path, |old(html)|) && props == RegisterAttr(old(props), a)
    {
      hide SplitParts; hide ReadPlaceholder; hide RegisterAll; hide HasPlaceholder; hide AttrsOps;
      a := Bare(name);
      var v0 := i;
      i := Until(m, '"', v0 + 1);
      if i >= |m| { return false, a; }
      i := i + 1;
      var val := m[v0 + 1..i - 1];
      if !HasPlaceholder(val) {
        a := Static(name, val);
        html := html + " " + name + "=" + m[v0..i];
        assert m[v0..i] == QUOTE + val + QUOTE;
        OneAttr(a, path, |old(html)|);
        return true, a;
      }
      var ok1, parts := Split(val);
      if !ok1 { return false, a; }
      a := Dynamic(name, parts);
      OneAttr(a, path, |old(html)|);
      ops := ops + [Op(ToAttr(name), path, parts, |html|)];
      return true, a;
    }

    /** A placeholder alone. */
    method Braced(name: string) returns (ok: bool, ghost a: Attr)
      requires i + 1 < |m| && m[i] == '{' && m[i + 1] == '{'
      modifies this`i, this`html, this`ops, this`props
      ensures ok <==> ReadValue(m, name, old(i)).Some?
      ensures ok ==> (a, i) == ReadValue(m, name, old(i)).value && html == old(html) + AttrHtml(a)
      ensures ok ==> ops == old(ops) + AttrsOps([a], path, |old(html)|) && props == RegisterAttr(old(props), a)
    {
      hide SplitParts; hide ReadPlaceholder; hide RegisterAll; hide HasPlaceholder; hide AttrsOps;
      a := Bare(name);
      PairAt(m, i);
      var ok1, p, end := Placeholder(m, i);
      if !ok1 { return false, a; }
      RegisterOne(old(props), p);
      i := end;
      a := Dynamic(name, [p]);
      OneAttr(a, path, |old(html)|);
      ops := ops + [Op(ToAttr(name), path, [p], |html|)];
      return true, a;
    }

    method Attribute() returns (ok: bool, ghost a: Attr)
      requires i < |m| && m[i] != '>' && m[i] != '/'
      modifies this`i, this`html, this`ops, this`props
      ensures ok <==> ReadAttr(m, old(i)).Some?
      ensures ok ==> (a, i) == ReadAttr(m, old(i)).value && html == old(html) + AttrHtml(a)
      ensures ok ==> ops == old(ops) + AttrsOps([a], path, |old(html)|) && props == RegisterAttr(old(props), a)
    {
      hide ReadValue; hide AttrsOps;
      a := Bare("");
      var name := TagName();
      if name == "" { return false, a; }
      SkipSpace();
      if i >= |m| { return false, a; }
      if m[i] != '=' {
        a := Bare(name);
        BareHasNoOp(a, path, |html|);
        html := html + " " + name;
        return true, a;
      }
      i := i + 1;
      SkipSpace();
      ok, a := Value(name);
    }

    /** What is still to be emitted, after what has been, is what the whole list emits. */
    ghost predicate AttrsDone(rest: seq<Attr>, whole: seq<Attr>, html0: string, ops0: seq<Op>, props0: seq<Prop>)
      reads this
    {
      && html + AttrsHtml(rest) == html0 + AttrsHtml(whole)
      && ops + AttrsOps(rest, path, |html|) == ops0 + AttrsOps(whole, path, |html0|)
      && RegisterAttrs(props, rest) == RegisterAttrs(props0, whole)
    }

    method Attributes() returns (ok: bool, ghost attrs: seq<Attr>)
      requires i <= |m|
      modifies this`i, this`html, this`ops, this`props
      ensures ok <==> ReadAttrs(m, old(i)).Some?
      ensures ok ==> (attrs, i) == ReadAttrs(m, old(i)).value && html == old(html) + AttrsHtml(attrs)
      ensures ok ==> ops == old(ops) + AttrsOps(attrs, path, |old(html)|) && props == RegisterAttrs(old(props), attrs)
    {
      hide ReadAttr; hide ReadAttrs; hide AttrsOps; hide AttrsHtml; hide RegisterAttrs; hide AttrHtml;
      ghost var whole := ReadAttrs(m, i);
      attrs := if whole.Some? then whole.value.0 else [];
      while true
        invariant i <= |m|
        invariant whole.Some? <==> ReadAttrs(m, i).Some?
        invariant whole.Some? ==>
                    whole.value.1 == ReadAttrs(m, i).value.1 &&
                    AttrsDone(ReadAttrs(m, i).value.0, attrs, old(html), old(ops), old(props))
        decreases |m| - i
      {
        ghost var i0 := i;
        SkipSpace();
        AttrsRound(m, i0);
        if i >= |m| { return false, attrs; }
        if m[i] == '>' || m[i] == '/' {
          AttrsNone(path, |html|, props);
          return true, attrs;
        }
        ghost var html1 := html;
        var ok1;
        ghost var a;
        ok1, a := Attribute();
        if !ok1 { return false, attrs; }
        if whole.Some? {
          AttrsFirst(a, ReadAttrs(m, i).value.0, path, |html1|);
        }
      }
    }

    // ---- elements ----

    /** A text run between tags: static text goes to the HTML, a mixed run becomes parts. */
    method TextRun(run: string) returns (ok: bool, parts: seq<Part>)
      modifies this`html, this`props
      ensures ok <==> ReadRun(run).Some?
      ensures ok ==> html == old(html) + NodesHtml(ReadRun(run).value)
      ensures ok ==> props == RegisterNodes(old(props), ReadRun(run).value)
      ensures ok ==> (parts != [] <==> HasDyn(ReadRun(run).value))
      ensures ok && parts != [] ==> ReadRun(run).value == Cons(Dyn(parts), Nil)
      ensures ok ==> OneRun(ReadRun(run).value)
    {
      hide SplitParts; hide RegisterAll; hide HasPlaceholder; hide TrimEdges;
      var text := TrimEdges(run);
      if text == "" { return true, []; }
      if !HasPlaceholder(text) {
        html := html + text;
        return true, [];
      }
      SplitNotEmpty(text);
      ok, parts := Split(text);
    }

    /** The text up to the next tag. */
    method TextBefore() returns (ok: bool, parts: seq<Part>)
      requires i <= |m|
      modifies this`i, this`html, this`props
      ensures i == Until(m, '<', old(i))
      ensures var r := ReadRun(m[old(i)..i]);
        (ok <==> r.Some?)
        && (ok ==> html == old(html) + NodesHtml(r.value) && OneRun(r.value))
        && (ok ==> props == RegisterNodes(old(props), r.value))
        && (ok ==> (parts != [] <==> HasDyn(r.value)) && (parts != [] ==> r.value == Cons(Dyn(parts), Nil)))
    {
      hide ReadRun; hide NodesHtml; hide RegisterNodes; hide HasDyn; hide OneRun;
      var t0 := i;
      i := Until(m, '<', i);
      ok, parts := TextRun(m[t0..i]);
    }

    /** The opening of a tag up to and including its attributes. */
    method OpenTag() returns (ok: bool, tag: string, ghost attrs: seq<Attr>)
      requires i < |m|
      modifies this`i, this`html, this`ops, this`props
      ensures var n := NameEnd(m, old(i) + 1);
              && (ok <==> m[old(i) + 1..n] != "" && m[old(i) + 1] != '!' && ReadAttrs(m, n).Some?)
              && (ok ==> tag == m[old(i) + 1..n] && (attrs, i) == ReadAttrs(m, n).value)
      ensures ok ==> html == old(html) + ("<" + tag + AttrsHtml(attrs))
      ensures ok ==> ops == old(ops) + AttrsOps(attrs, path, |old(html)| + 1 + |tag|)
      ensures ok ==> props == RegisterAttrs(old(props), attrs)
    {
      hide ReadAttrs; hide AttrsOps; hide AttrsHtml; hide RegisterAttrs;
      attrs := [];
      i := i + 1;
      tag := TagName();
      if tag == "" { return false, tag, attrs; }
      if tag[0] == '!' { return false, tag, attrs; }
      html := html + "<" + tag;
      ghost var html1 := html;
      ok, attrs := Attributes();
      if ok {
        assert html1 + AttrsHtml(attrs) == old(html) + ("<" + tag + AttrsHtml(attrs));
      }
    }

    /** An element; i stands at its opening angle bracket. */
    method Element() returns (ok: bool, ghost e: Elem)
      requires i < |m|
      modifies this
      ensures ok <==> ReadElem(m, old(i)).Some?
      ensures ok ==> (e, i) == ReadElem(m, old(i)).value && html == old(html) + ElemHtml(e)
      ensures ok ==> ops == old(ops) + ElemOps(e, path, |old(html)|) && props == RegisterElem(old(props), e)
      ensures path == old(path)
      decreases |m| - i, 0
    {
      hide ReadElem; hide ReadAttrs; hide ReadNodes; hide AttrsOps; hide NodesOps; hide AttrsHtml; hide NodesHtml;
      hide RegisterAttrs; hide RegisterNodes; hide Separate; hide ElemHtml; hide ElemOps; hide RegisterElem;
      ElemRound(m, i);
      e := Elem("", [], Normal, Nil);
      var ok1, tag;
      ghost var attrs;
      ok1, tag, attrs := OpenTag();
      if !ok1 { return false, e; }
      var isVoid := tag in VOID_TAGS;
      if m[i] == '/' {
        ok := CloseSelf(tag, isVoid);
        e := Elem(tag, attrs, if isVoid then Void(true) else Normal, Nil);
        EmptyElem(old(html), e, path, old(props));
        return;
      }
      i := i + 1;
      html := html + ">";
      if isVoid {
        e := Elem(tag, attrs, Void(false), Nil);
        EmptyElem(old(html), e, path, old(props));
        return true, e;
      }
      ghost var nodes;
      ok, nodes := Inside(tag);
      e := Elem(tag, attrs, Normal, nodes);
      FullElem(old(html), e, path, old(props));
    }

    /** The content and the closing tag, which is written anew. */
    method Inside(tag: string) returns (ok: bool, ghost nodes: Nodes)
      requires i <= |m|
      modifies this
      ensures ok <==> ReadNodes(m, old(i), tag).Some? && Separate(ReadNodes(m, old(i), tag).value.0)
      ensures ok ==> (nodes, i) == ReadNodes(m, old(i), tag).value
      ensures ok ==> html == old(html) + NodesHtml(nodes) + "</" + tag + ">"
      ensures ok ==> ops == old(ops) + NodesOps(nodes, path, 0, |old(html)|)
      ensures ok ==> props == RegisterNodes(old(props), nodes)
      ensures path == old(path)
      decreases |m| - i, 4
    {
      hide ReadNodes; hide NodesOps; hide NodesHtml; hide RegisterNodes; hide Separate;
      ok, nodes := Content(tag);
      html := html + "</" + tag + ">";
    }

    /** The end of a self-closing tag: void elements keep the authored form, others get a closing tag. */
    method CloseSelf(tag: string, isVoid: bool) returns (ok: bool)
      requires i < |m| && m[i] == '/'
      modifies this`i, this`html
      ensures ok <==> old(i) + 1 < |m| && m[old(i) + 1] == '>'
      ensures ok ==> i == old(i) + 2
      ensures ok ==> html == if isVoid then old(html) + " />" else old(html) + ">" + ("</" + tag + ">")
    {
      i := i + 1;
      if i >= |m| || m[i] != '>' { return false; }
      i := i + 1;
      html := html + (if isVoid then " />" else ">");
      if !isVoid {
        html := html + ("</" + tag + ">");
      }
      return true;
    }

    /** What this scanner has emitted so far. */
    ghost function So(): Output
      reads this
    {
      Output(html, ops, props)
    }

    /** At a closing tag: it must name the element it closes. */
    method CloseTag(tag: string) returns (ok: bool)
      requires i + 2 <= |m|
      modifies this`i
      ensures i <= |m|
      ensures var gt := Until(m, '>', old(i) + 2);
              (ok <==> gt < |m| && Trim(m[old(i) + 2..gt], " \t\r\n") == tag) && (ok ==> i == gt + 1)
    {
      hide Trim;
      var c0 := i + 2;
      var gt := Until(m, '>', c0);
      if gt >= |m| { return false; }
      if Trim(m[c0..gt], " \t\r\n") != tag { return false; }
      i := gt + 1;
      return true;
    }

    /** The k-th child element: its path is this one's extended by k while it is scanned. */
    method ChildElement(k: nat) returns (ok: bool, ghost e: Elem)
      requires i < |m|
      modifies this
      ensures ok <==> ReadElem(m, old(i)).Some?
      ensures ok ==> (e, i) == ReadElem(m, old(i)).value && html == old(html) + ElemHtml(e)
      ensures ok ==> ops == old(ops) + ElemOps(e, path + [k], |old(html)|) && props == RegisterElem(old(props), e)
      ensures path == old(path)
      decreases |m| - i, 1
    {
      hide ReadElem; hide ElemHtml; hide ElemOps; hide RegisterElem;
      path := path + [k];
      ok, e := Element();
      path := path[..|path| - 1];
    }

    /** Text runs and child elements in order, through the closing tag. */
    method Runs(tag: string) returns (ok: bool, ghost nodes: Nodes, texts: seq<Part>, children: nat)
      requires i <= |m|
      modifies this
      ensures ok <==> ReadNodes(m, old(i), tag).Some?
      ensures ok ==> (nodes, i) == ReadNodes(m, old(i), tag).value
      ensures ok ==> AllEmitted(nodes, texts, path, children, old(So()), So())
      ensures path == old(path)
      decreases |m| - i, 2
    {
      hide ReadElem; hide ReadNodes; hide NodesOps; hide NodesHtml; hide RegisterNodes; hide ElemOps; hide ElemHtml;
      hide RegisterElem; hide ReadRun; hide Trim; hide HasDyn; hide HasChild; hide Emitted; hide Prepend; hide OneRun;
      hide AllEmitted;
      ghost var whole := ReadNodes(m, i, tag);
      nodes := if whole.Some? then whole.value.0 else Nil;
      ghost var start := So();
      EmittedAtStart(nodes, path, start);
      texts := [];
      children := 0;
      while true
        invariant old(i) <= i <= |m| && path == old(path)
        invariant whole.Some? <==> ReadNodes(m, i, tag).Some?
        invariant texts != [] ==> children > 0
        invariant whole.Some? ==>
                    whole.value.1 == ReadNodes(m, i, tag).value.1 &&
                    Emitted(ReadNodes(m, i, tag).value.0, nodes, texts, path, children, start, So())
        decreases |m| - i
      {
        NodesRound(m, i, tag);
        ghost var before := So();
        ghost var t0 := i;
        var ok1, parts := TextBefore();
        if !ok1 || i >= |m| { return false, nodes, texts, children; }
        ghost var run := ReadRun(m[t0..i]).value;
        if i + 1 < |m| && m[i + 1] == '/' {
          var closed := CloseTag(tag);
          if !closed { return false, nodes, texts, children; }
          EmittedLastRun(run, nodes, texts, parts, path, children, start, before, So());
          return true, nodes, texts + parts, children;
        }
        if i + 1 < |m| && IsUpper(m[i + 1]) { return false, nodes, texts, children; }
        var ok2;
        ghost var e;
        ghost var mid := So();
        ok2, e := ChildElement(children);
        if !ok2 { return false, nodes, texts, children; }
        if whole.Some? {
          EmittedRun(run, e, ReadNodes(m, i, tag).value.0, nodes, texts, parts, path, children, start, before, mid,
            So());
        }
        texts := texts + parts;
        children := children + 1;
      }
    }

    /** The content of an element: placeholder text, which becomes one operation, or child elements, not both. */
    method Content(tag: string) returns (ok: bool, ghost nodes: Nodes)
      requires i <= |m|
      modifies this
      ensures ok <==> ReadNodes(m, old(i), tag).Some? && Separate(ReadNodes(m, old(i), tag).value.0)
      ensures ok ==> (nodes, i) == ReadNodes(m, old(i), tag).value && html == old(html) + NodesHtml(nodes)
      ensures ok ==> ops == old(ops) + NodesOps(nodes, path, 0, |old(html)|)
      ensures ok ==> props == RegisterNodes(old(props), nodes)
      ensures path == old(path)
      decreases |m| - i, 3
    {
      hide ReadNodes; hide NodesOps; hide NodesHtml; hide RegisterNodes; hide HasDyn; hide HasChild; hide Separate;
      var texts, children;
      ok, nodes, texts, children := Runs(tag);
      if !ok { return; }
      EmittedSeparate(nodes, texts, children);
      if |texts| > 0 {
        if children > 0 { return false, nodes; }
        ops := ops + [Op(ToText, path, texts, |html|)];
      }
    }
  }

  datatype Output = Output(html: string, ops: seq<Op>, props: seq<Prop>)

  /** What is still to be emitted, after what has been, is what the whole content emits. */
  ghost predicate Emitted(rest: Nodes, whole: Nodes, texts: seq<Part>, path: seq<nat>, k: nat, start: Output,
                          now: Output) {
    && (HasChild(whole) <==> k > 0 || HasChild(rest))
    && (HasDyn(whole) <==> texts != [] || HasDyn(rest))
    && now.html + NodesHtml(rest) == start.html + NodesHtml(whole)
    && RegisterNodes(now.props, rest) == RegisterNodes(start.props, whole)
    && (texts == [] ==>
          now.ops + NodesOps(rest, path, k, |now.html|) == start.ops + NodesOps(whole, path, 0, |start.html|))
  }

  /** All of the content has been emitted but for the one operation of its placeholder text. */
  ghost predicate AllEmitted(whole: Nodes, texts: seq<Part>, path: seq<nat>, k: nat, start: Output, now: Output) {
    && (HasChild(whole) <==> k > 0)
    && (HasDyn(whole) <==> texts != [])
    && now.html == start.html + NodesHtml(whole) && now.props == RegisterNodes(start.props, whole)
    && (texts == [] || k == 0 ==>
          now.ops + (if texts == [] then [] else [Op(ToText, path, texts, |now.html|)])
          == start.ops + NodesOps(whole, path, 0, |start.html|))
  }

  lemma EmittedAtStart(whole: Nodes, path: seq<nat>, start: Output)
    ensures Emitted(whole, whole, [], path, 0, start, start)
  {
  }

  /** What reading an element comes down to. */
  lemma ElemRound(m: string, i: nat)
    requires i < |m|
    ensures var n := NameEnd(m, i + 1);
            var tag := m[i + 1..n];
            if tag == "" || m[i + 1] == '!' || ReadAttrs(m, n).None? then ReadElem(m, i).None?
            else
              var (attrs, j) := ReadAttrs(m, n).value;
              ReadElem(m, i) ==
                if m[j] == '/' then
                  if j + 1 >= |m| || m[j + 1] != '>' then None
                  else Some((Elem(tag, attrs, if tag in VOID_TAGS then Void(true) else Normal, Nil), j + 2))
                else if tag in VOID_TAGS then Some((Elem(tag, attrs, Void(false), Nil), j + 1))
                else if ReadNodes(m, j + 1, tag).None? || !Separate(ReadNodes(m, j + 1, tag).value.0) then None
                else Some((Elem(tag, attrs, Normal, ReadNodes(m, j + 1, tag).value.0),
                  ReadNodes(m, j + 1, tag).value.1))
  {
    hide ReadAttrs; hide ReadNodes; hide Separate;
  }

  lemma EmptyElem(before: string, e: Elem, path: seq<nat>, props: seq<Prop>)
    requires e.nodes.Nil?
    ensures var end := if e.close.Void? then "" else "</" + e.tag + ">";
            before + ElemHtml(e)
            == before + ("<" + e.tag + AttrsHtml(e.attrs)) + (if e.close == Void(true) then " />" else ">") + end
    ensures before + ("<" + e.tag + AttrsHtml(e.attrs)) + ">" + "</" + e.tag + ">"
         == before + ("<" + e.tag + AttrsHtml(e.attrs)) + ">" + ("</" + e.tag + ">")
    ensures forall pos: nat :: ElemOps(e, path, pos) == AttrsOps(e.attrs, path, pos + 1 + |e.tag|)
    ensures RegisterElem(props, e) == RegisterAttrs(props, e.attrs)
  {
    hide AttrsHtml; hide AttrsOps; hide RegisterAttrs;
    assert NodesHtml(Nil) == "";
  }

  lemma FullElem(before: string, e: Elem, path: seq<nat>, props: seq<Prop>)
    requires e.close.Normal?
    ensures before + ElemHtml(e)
         == before + ("<" + e.tag + AttrsHtml(e.attrs)) + ">" + NodesHtml(e.nodes) + "</" + e.tag + ">"
    ensures var open := before + ("<" + e.tag + AttrsHtml(e.attrs)) + ">";
            ElemOps(e, path, |before|)
            == AttrsOps(e.attrs, path, |before| + 1 + |e.tag|) + NodesOps(e.nodes, path, 0, |open|)
    ensures RegisterElem(props, e) == RegisterNodes(RegisterAttrs(props, e.attrs), e.nodes)
  {
    hide AttrsHtml; hide AttrsOps; hide RegisterAttrs; hide NodesHtml; hide NodesOps; hide RegisterNodes;
  }

  /** One round of reading content. */
  lemma NodesRound(m: string, i: nat, tag: string)
    requires i <= |m|
    ensures var lt := Until(m, '<', i);
            var run := ReadRun(m[i..lt]);
            if run.None? || lt >= |m| then ReadNodes(m, i, tag).None?
            else if lt + 1 < |m| && m[lt + 1] == '/' then
              var gt := Until(m, '>', lt + 2);
              ReadNodes(m, i, tag) == if gt >= |m| || Trim(m[lt + 2..gt], " \t\r\n") != tag then None
                                      else Some((run.value, gt + 1))
            else if lt + 1 < |m| && IsUpper(m[lt + 1]) then ReadNodes(m, i, tag).None?
            else if ReadElem(m, lt).None? then ReadNodes(m, i, tag).None?
            else
              var (e, j) := ReadElem(m, lt).value;
              ReadNodes(m, i, tag) == if ReadNodes(m, j, tag).None? then None
                                      else Some((Prepend(run.value, Cons(Child(e), ReadNodes(m, j, tag).value.0)),
                                                 ReadNodes(m, j, tag).value.1))
  {
    hide ReadElem; hide ReadRun; hide Trim;
  }

  ghost predicate OneRun(run: Nodes) {
    run.Nil? || (run.tail.Nil? && !run.head.Child?)
  }

  lemma RunAlone(run: Nodes, path: seq<nat>, k: nat, pos: nat)
    requires OneRun(run)
    ensures !HasChild(run)
    ensures HasDyn(run) <==> run.Cons? && run.head.Dyn?
    ensures NodesOps(run, path, k, pos)
         == if run.Cons? && run.head.Dyn? then [Op(ToText, path, run.head.parts, pos)] else []
    ensures HasDyn(run) ==> NodesHtml(run) == ""
    ensures forall props :: RegisterNodes(props, Nil) == props
  {
    if run.Cons? {
      assert run == Cons(run.head, Nil);
      assert NodesOps(Nil, path, k, pos) == [] && NodesHtml(Nil) == "" && !HasChild(Nil) && !HasDyn(Nil);
    }
  }

  lemma RunHas(run: Nodes, e: Elem, rest: Nodes)
    requires OneRun(run)
    ensures var all := Prepend(run, Cons(Child(e), rest));
            HasChild(all) && (HasDyn(all) <==> HasDyn(run) || HasDyn(rest))
  {
  }

  lemma RunHtml(run: Nodes, e: Elem, rest: Nodes)
    requires OneRun(run)
    ensures NodesHtml(Prepend(run, Cons(Child(e), rest))) == NodesHtml(run) + (ElemHtml(e) + NodesHtml(rest))
  {
    assert NodesHtml(Cons(Child(e), rest)) == ElemHtml(e) + NodesHtml(rest);
    if run.Cons? {
      assert run == Cons(run.head, Nil);
      assert NodesHtml(run) == NodeHtml(run.head);
    }
  }

  lemma RunOps(run: Nodes, e: Elem, rest: Nodes, path: seq<nat>, k: nat, pos: nat)
    requires OneRun(run) && !HasDyn(run)
    ensures var p := pos + |NodesHtml(run)|;
            NodesOps(Prepend(run, Cons(Child(e), rest)), path, k, pos)
            == ElemOps(e, path + [k], p) + NodesOps(rest, path, k + 1, p + |ElemHtml(e)|)
  {
    if run.Cons? {
      assert run == Cons(run.head, Nil);
      assert NodesHtml(run) == NodeHtml(run.head);
    }
  }

  lemma RunProps(run: Nodes, e: Elem, rest: Nodes, props: seq<Prop>)
    requires OneRun(run)
    ensures RegisterNodes(props, Prepend(run, Cons(Child(e), rest)))
         == RegisterNodes(RegisterElem(RegisterNodes(props, run), e), rest)
  {
  }

  /** A last run is all that is left; the parts of a mixed run wait for the end of the content. */
  lemma EmittedLastRun(run: Nodes, whole: Nodes, texts: seq<Part>, parts: seq<Part>, path: seq<nat>, k: nat,
                       start: Output, before: Output, now: Output)
    requires OneRun(run) && Emitted(run, whole, texts, path, k, start, before)
    requires now.html == before.html + NodesHtml(run) && now.props == RegisterNodes(before.props, run)
    requires now.ops == before.ops && (parts != [] <==> HasDyn(run)) && (parts != [] ==> run == Cons(Dyn(parts), Nil))
    requires texts != [] ==> k > 0
    ensures AllEmitted(whole, texts + parts, path, k, start, now)
  {
    hide NodesOps; hide NodesHtml; hide RegisterNodes; hide HasChild; hide HasDyn; hide OneRun;
    RunAlone(run, path, k, |before.html|);
    if texts == [] {
      assert texts + parts == parts;
      if parts == [] {
        assert before.ops + [] == before.ops;
      }
    }
  }

  lemma EmittedSeparate(whole: Nodes, texts: seq<Part>, k: nat)
    requires (HasChild(whole) <==> k > 0) && (HasDyn(whole) <==> texts != [])
    ensures Separate(whole) <==> texts == [] || k == 0
  {
  }

  /** A run and the child element after it. */
  lemma EmittedRun(run: Nodes, e: Elem, rest: Nodes, whole: Nodes, texts: seq<Part>, parts: seq<Part>, path: seq<nat>,
                   k: nat, start: Output, before: Output, mid: Output, now: Output)
    requires OneRun(run)
    requires Emitted(Prepend(run, Cons(Child(e), rest)), whole, texts, path, k, start, before)
    requires mid.html == before.html + NodesHtml(run) && mid.props == RegisterNodes(before.props, run)
    requires mid.ops == before.ops && (parts != [] <==> HasDyn(run))
    requires now.html == mid.html + ElemHtml(e) && now.props == RegisterElem(mid.props, e)
    requires now.ops == mid.ops + ElemOps(e, path + [k], |mid.html|)
    ensures Emitted(rest, whole, texts + parts, path, k + 1, start, now)
  {
    hide NodesOps; hide NodesHtml; hide RegisterNodes; hide HasChild; hide HasDyn; hide OneRun; hide Prepend;
    hide ElemOps; hide ElemHtml; hide RegisterElem;
    RunHas(run, e, rest);
    RunHtml(run, e, rest);
    RunProps(run, e, rest, before.props);
    assert before.html + (NodesHtml(run) + (ElemHtml(e) + NodesHtml(rest))) == now.html + NodesHtml(rest);
    if texts + parts == [] {
      RunOps(run, e, rest, path, k, |before.html|);
      var p := |before.html| + |NodesHtml(run)|;
      assert before.ops + (ElemOps(e, path + [k], p) + NodesOps(rest, path, k + 1, p + |ElemHtml(e)|))
          == now.ops + NodesOps(rest, path, k + 1, p + |ElemHtml(e)|);
    }
  }

  lemma NoValue(m: string, name: string, v: nat)
    requires v <= |m|
    ensures (v < |m| && m[v] == '"') || (v + 1 < |m| && m[v] == '{' && m[v + 1] == '{') || ReadValue(m, name, v).None?
  {
    PairAt(m, v);
  }

  lemma OneAttr(a: Attr, path: seq<nat>, pos: nat)
    ensures AttrsOps([a], path, pos) == if a.Dynamic? then [Op(ToAttr(a.name), path, a.parts, pos)] else []
  {
    assert [a][1..] == [];
  }

  lemma PairAt(m: string, i: nat)
    ensures At(m, "{{", i) <==> i + 1 < |m| && m[i] == '{' && m[i + 1] == '{'
  {
    if i + 1 < |m| {
      assert m[i..i + 2] == [m[i], m[i + 1]];
    }
  }

  lemma SplitNotEmpty(run: string)
    requires HasPlaceholder(run)
    ensures SplitParts(run, 0).Some? ==> SplitParts(run, 0).value != []
  {
  }

  lemma RegisterNone(props: seq<Prop>)
    ensures RegisterAll(props, []) == props
  {
  }

  lemma RegisterOne(props: seq<Prop>, p: Part)
    ensures RegisterAll(props, [p]) == Register(props, p)
  {
    assert [p][1..] == [];
    assert RegisterAll(props, [p]) == RegisterAll(Register(props, p), []);
  }

  lemma BareHasNoOp(a: Attr, path: seq<nat>, pos: nat)
    requires a.Bare?
    ensures AttrsOps([a], path, pos) == []
  {
    assert [a][1..] == [];
  }

  /** One round of reading attributes. */
  lemma AttrsRound(m: string, i: nat)
    requires i <= |m|
    ensures var j := SpaceEnd(m, i);
            if j >= |m| then ReadAttrs(m, i).None?
            else if m[j] == '>' || m[j] == '/' then ReadAttrs(m, i) == Some(([], j))
            else if ReadAttr(m, j).None? then ReadAttrs(m, i).None?
            else
              var (a, k) := ReadAttr(m, j).value;
              ReadAttrs(m, i) == if ReadAttrs(m, k).None? then None
                                 else Some(([a] + ReadAttrs(m, k).value.0, ReadAttrs(m, k).value.1))
  {
  }

  lemma AttrsNone(path: seq<nat>, pos: nat, props: seq<Prop>)
    ensures AttrsHtml([]) == "" && AttrsOps([], path, pos) == [] && RegisterAttrs(props, []) == props
  {
  }

  lemma AttrsFirst(a: Attr, rest: seq<Attr>, path: seq<nat>, pos: nat)
    ensures AttrsHtml([a] + rest) == AttrHtml(a) + AttrsHtml(rest)
    ensures AttrsOps([a] + rest, path, pos) == AttrsOps([a], path, pos) + AttrsOps(rest, path, pos + |AttrHtml(a)|)
    ensures forall props :: RegisterAttrs(props, [a] + rest) == RegisterAttrs(RegisterAttr(props, a), rest)
  {
    assert ([a] + rest)[1..] == rest;
    assert [a][1..] == [];
    var first := if a.Dynamic? then [Op(ToAttr(a.name), path, a.parts, pos)] else [];
    assert AttrsOps([a], path, pos) == first + AttrsOps([], path, pos + |AttrHtml(a)|);
    assert AttrsOps([a], path, pos) == first;
  }
}
