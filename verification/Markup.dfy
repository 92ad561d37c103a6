/**
 * Component markup: the tree a piece of markup denotes, the static HTML and the
 * positioned operations it compiles to, and how the text is read.
 */
module Markup {
  import opened Wrappers

  // ---- what is scanned ----

  /** A run of text split at its placeholders. */
  datatype Part = Lit(text: string) | Ident(name: string, ptype: string, raw: bool)

  datatype Attr =
    | Bare(name: string)
    | Static(name: string, value: string)
    | Dynamic(name: string, parts: seq<Part>)

  /** How a tag ends: void elements have no content and keep their authored form. */
  datatype Close = Void(slashed: bool) | Normal

  datatype Elem = Elem(tag: string, attrs: seq<Attr>, close: Close, nodes: Nodes)

  datatype Nodes = Nil | Cons(head: Node, tail: Nodes)

  datatype Node = Text(run: string) | Dyn(parts: seq<Part>) | Child(elem: Elem)

  // ---- what it compiles to ----

  /** An operation on the element `path` names, `pos` bytes into the static HTML. */
  datatype Op = Op(target: Target, path: seq<nat>, parts: seq<Part>, pos: nat)

  datatype Target = ToAttr(name: string) | ToText

  const QUOTE: string := "\""

  function AttrHtml(a: Attr): string {
    match a
    case Bare(name) => " " + name
    case Static(name, value) => " " + name + "=" + QUOTE + value + QUOTE
    case Dynamic(_, _) => ""
  }

  function AttrsHtml(attrs: seq<Attr>): string {
    if attrs == [] then "" else AttrHtml(attrs[0]) + AttrsHtml(attrs[1..])
  }

  function OpenHtml(e: Elem): string {
    "<" + e.tag + AttrsHtml(e.attrs) + (if e.close == Void(true) then " />" else ">")
  }

  function CloseHtml(tag: string): string {
    "</" + tag + ">"
  }

  function ElemHtml(e: Elem): string {
    if e.close.Void? then OpenHtml(e) else OpenHtml(e) + NodesHtml(e.nodes) + CloseHtml(e.tag)
  }

  function NodeHtml(n: Node): string {
    match n
    case Text(run) => run
    case Dyn(_) => ""
    case Child(e) => ElemHtml(e)
  }

  function NodesHtml(ns: Nodes): string {
    match ns
    case Nil => ""
    case Cons(n, rest) => NodeHtml(n) + NodesHtml(rest)
  }

  function AttrsOps(attrs: seq<Attr>, path: seq<nat>, pos: nat): seq<Op> {
    if attrs == [] then []
    else
      (if attrs[0].Dynamic? then [Op(ToAttr(attrs[0].name), path, attrs[0].parts, pos)] else [])
      + AttrsOps(attrs[1..], path, pos + |AttrHtml(attrs[0])|)
  }

  function ElemOps(e: Elem, path: seq<nat>, pos: nat): seq<Op> {
    AttrsOps(e.attrs, path, pos + 1 + |e.tag|)
    + (if e.close.Void? then [] else NodesOps(e.nodes, path, 0, pos + |OpenHtml(e)|))
  }

  /** k counts the element children before ns. */
  function NodesOps(ns: Nodes, path: seq<nat>, k: nat, pos: nat): seq<Op> {
    match ns
    case Nil => []
    case Cons(Text(run), rest) => NodesOps(rest, path, k, pos + |run|)
    case Cons(Dyn(parts), rest) => [Op(ToText, path, parts, pos)] + NodesOps(rest, path, k, pos)
    case Cons(Child(e), rest) => ElemOps(e, path + [k], pos) + NodesOps(rest, path, k + 1, pos + |ElemHtml(e)|)
  }

  // ---- characters and searching ----

  predicate IsSpace(c: char) {
    c == ' ' || c == '\t' || c == '\n' || c == '\r' || c == '\U{0B}' || c == '\U{0C}'
  }

  predicate EndsName(c: char) {
    IsSpace(c) || c == '>' || c == '/' || c == '='
  }

  predicate IsUpper(c: char) {
    'A' <= c <= 'Z'
  }

  predicate At(s: string, pat: string, i: nat) {
    i + |pat| <= |s| && s[i..i + |pat|] == pat
  }

  /** indexOfPos: the first place a non-empty pattern stands, from i on. */
  function IndexOf(s: string, pat: string, i: nat): (r: Option<nat>)
    ensures r.Some? ==> i <= r.value && At(s, pat, r.value)
    decreases |s| - i
  {
    if At(s, pat, i) then Some(i) else if i >= |s| then None else IndexOf(s, pat, i + 1)
  }

  function SpaceEnd(m: string, i: nat): (j: nat)
    requires i <= |m|
    ensures i <= j <= |m|
    decreases |m| - i
  {
    if i < |m| && IsSpace(m[i]) then SpaceEnd(m, i + 1) else i
  }

  function NameEnd(m: string, i: nat): (j: nat)
    requires i <= |m|
    ensures i <= j <= |m|
    ensures forall k :: i <= k < j ==> !EndsName(m[k])
    ensures j < |m| ==> EndsName(m[j])
    decreases |m| - i
  {
    if i < |m| && !EndsName(m[i]) then NameEnd(m, i + 1) else i
  }

  /** The next `c`, or the end. */
  function Until(m: string, c: char, i: nat): (j: nat)
    requires i <= |m|
    ensures i <= j <= |m|
    ensures forall k :: i <= k < j ==> m[k] != c
    ensures j < |m| ==> m[j] == c
    decreases |m| - i
  {
    if i < |m| && m[i] != c then Until(m, c, i + 1) else i
  }

  function TrimLeft(s: string, cs: string): (r: string)
    ensures |r| <= |s|
  {
    if s != "" && s[0] in cs then TrimLeft(s[1..], cs) else s
  }

  function TrimRight(s: string, cs: string): (r: string)
    ensures |r| <= |s|
  {
    if s != "" && s[|s| - 1] in cs then TrimRight(s[..|s| - 1], cs) else s
  }

  function Trim(s: string, cs: string): string {
    TrimRight(TrimLeft(s, cs), cs)
  }

  // ---- text runs ----

  function LeadEnd(s: string, i: nat): (j: nat)
    requires i <= |s|
    ensures i <= j <= |s|
    decreases |s| - i
  {
    if i < |s| && IsSpace(s[i]) then LeadEnd(s, i + 1) else i
  }

  function TailStart(s: string, j: nat): (k: nat)
    requires j <= |s|
    ensures k <= j
    decreases j
  {
    if j > 0 && IsSpace(s[j - 1]) then TailStart(s, j - 1) else j
  }

  /** trimFormattingEdges: edge whitespace is dropped only where it contains a newline. */
  function TrimEdges(run: string): string {
    var e := LeadEnd(run, 0);
    var r := if '\n' in run[..e] then run[e..] else run;
    var b := TailStart(r, |r|);
    if '\n' in r[b..] then r[..b] else r
  }

  // ---- placeholders ----

  function MapType(code: string): string {
    if code == "d" then "i64" else if code == "f" then "f64" else if code == "b" then "bool" else "string"
  }

  function ReadIdent(ph: string): Part {
    var colon := Until(ph, ':', 0);
    if colon == |ph| then Ident(ph, "string", false)
    else
      var ident, code := Trim(ph[..colon], " \t"), Trim(ph[colon + 1..], " \t");
      if code == "h" then Ident(ident, "string", true) else Ident(ident, MapType(code), false)
  }

  /** At an opening brace pair: the placeholder and where it ends. */
  function ReadPlaceholder(m: string, i: nat): (r: Option<(Part, nat)>)
    ensures r.Some? ==> i + 4 <= r.value.1 <= |m| && r.value.0.Ident?
  {
    var end := IndexOf(m, "}}", i + 2);
    if end.None? then None else Some((ReadIdent(Trim(m[i + 2..end.value], " \t\r\n")), end.value + 2))
  }

  /** A run from k on, split into static and placeholder parts. */
  function SplitParts(run: string, k: nat): (r: Option<seq<Part>>)
    requires k <= |run|
    decreases |run| - k
  {
    var open := IndexOf(run, "{{", k);
    if open.None? then Some(if k < |run| then [Lit(run[k..])] else [])
    else
      var lit := if open.value > k then [Lit(run[k..open.value])] else [];
      var ph := ReadPlaceholder(run, open.value);
      if ph.None? then None
      else
        var rest := SplitParts(run, ph.value.1);
        if rest.None? then None else Some(lit + [ph.value.0] + rest.value)
  }

  predicate HasPlaceholder(s: string) {
    IndexOf(s, "{{", 0).Some?
  }

  // ---- attributes ----

  /** One attribute at i, where a name starts. */
  function ReadAttr(m: string, i: nat): (r: Option<(Attr, nat)>)
    requires i < |m| && m[i] != '>' && m[i] != '/'
    ensures r.Some? ==> i < r.value.1 <= |m|
  {
    var n := NameEnd(m, i);
    if n == i then None else
    var name := m[i..n];
    var j := SpaceEnd(m, n);
    if j >= |m| then None
    else if m[j] != '=' then Some((Bare(name), j))
    else ReadValue(m, name, SpaceEnd(m, j + 1))
  }

  function ReadValue(m: string, name: string, v0: nat): (r: Option<(Attr, nat)>)
    requires v0 <= |m|
    ensures r.Some? ==> v0 < r.value.1 <= |m|
  {
    if v0 < |m| && m[v0] == '"' then
      var q := Until(m, '"', v0 + 1);
      if q >= |m| then None
      else if !HasPlaceholder(m[v0 + 1..q]) then Some((Static(name, m[v0 + 1..q]), q + 1))
      else
        var parts := SplitParts(m[v0 + 1..q], 0);
        if parts.None? then None else Some((Dynamic(name, parts.value), q + 1))
    else if At(m, "{{", v0) then
      var ph := ReadPlaceholder(m, v0);
      if ph.None? then None else Some((Dynamic(name, [ph.value.0]), ph.value.1))
    else None
  }

  /** The attributes from i on, up to the end of the tag. */
  function ReadAttrs(m: string, i: nat): (r: Option<(seq<Attr>, nat)>)
    requires i <= |m|
    ensures r.Some? ==> i <= r.value.1 < |m| && (m[r.value.1] == '>' || m[r.value.1] == '/')
    decreases |m| - i
  {
    var j := SpaceEnd(m, i);
    if j >= |m| then None
    else if m[j] == '>' || m[j] == '/' then Some(([], j))
    else
      var a := ReadAttr(m, j);
      if a.None? then None
      else
        var rest := ReadAttrs(m, a.value.1);
        if rest.None? then None else Some(([a.value.0] + rest.value.0, rest.value.1))
  }

  // ---- elements ----

  const VOID_TAGS: set<string> := {"area", "base", "br", "col", "embed", "hr", "img", "input", "link", "meta", "source",
                                   "track", "wbr"}

  /** An element at i, where m holds an opening angle bracket. */
  function ReadElem(m: string, i: nat): (r: Option<(Elem, nat)>)
    requires i < |m|
    ensures r.Some? ==> i < r.value.1 <= |m|
    decreases |m| - i, 0
  {
    var n := NameEnd(m, i + 1);
    var tag := m[i + 1..n];
    if tag == "" || tag[0] == '!' then None else
    var attrs := ReadAttrs(m, n);
    if attrs.None? then None else
    var (as_, j) := attrs.value;
    if m[j] == '/' then
      if j + 1 >= |m| || m[j + 1] != '>' then None
      else Some((Elem(tag, as_, if tag in VOID_TAGS then Void(true) else Normal, Nil), j + 2))
    else if tag in VOID_TAGS then Some((Elem(tag, as_, Void(false), Nil), j + 1))
    else
      var body := ReadNodes(m, j + 1, tag);
      if body.None? || !Separate(body.value.0) then None
      else Some((Elem(tag, as_, Normal, body.value.0), body.value.1))
  }

  /** Placeholder text may not share an element with child elements. */
  predicate Separate(ns: Nodes) {
    !(HasDyn(ns) && HasChild(ns))
  }

  predicate HasDyn(ns: Nodes) {
    ns.Cons? && (ns.head.Dyn? || HasDyn(ns.tail))
  }

  predicate HasChild(ns: Nodes) {
    ns.Cons? && (ns.head.Child? || HasChild(ns.tail))
  }

  /** The node a text run becomes, if any of it is content. */
  function ReadRun(run: string): Option<Nodes> {
    var r := TrimEdges(run);
    if r == "" then Some(Nil)
    else if !HasPlaceholder(r) then Some(Cons(Text(r), Nil))
    else
      var parts := SplitParts(r, 0);
      if parts.None? then None else Some(Cons(Dyn(parts.value), Nil))
  }

  function Prepend(run: Nodes, rest: Nodes): Nodes {
    if run.Nil? then rest else Cons(run.head, rest)
  }

  /** The content of an element from i on, through its closing tag. */
  function ReadNodes(m: string, i: nat, tag: string): (r: Option<(Nodes, nat)>)
    requires i <= |m|
    ensures r.Some? ==> i < r.value.1 <= |m|
    decreases |m| - i, 1
  {
    var lt := Until(m, '<', i);
    var run := ReadRun(m[i..lt]);
    if run.None? || lt >= |m| then None
    else if lt + 1 < |m| && m[lt + 1] == '/' then
      var gt := Until(m, '>', lt + 2);
      if gt >= |m| || Trim(m[lt + 2..gt], " \t\r\n") != tag then None
      else Some((run.value, gt + 1))
    else if lt + 1 < |m| && IsUpper(m[lt + 1]) then None
    else
      var child := ReadElem(m, lt);
      if child.None? then None
      else
        var rest := ReadNodes(m, child.value.1, tag);
        if rest.None? then None
        else Some((Prepend(run.value, Cons(Child(child.value.0), rest.value.0)), rest.value.1))
  }
}
