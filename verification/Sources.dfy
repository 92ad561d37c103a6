/**
 * The grammar of component markup as it is authored: everything an author may write,
 * white space included, its text, and the tree it stands for.
 */
module Sources {
  import opened Wrappers
  import opened Markup
  import opened Edges
  import opened Trees

  // ---- placeholders ----

  /** What stands between two brace pairs; the type follows a colon. */
  datatype Slot = Slot(before: string, name: string, typing: Option<Typing>, after: string)

  datatype Typing = Typing(left: string, right: string, code: string)

  function TypingText(t: Option<Typing>): string {
    match t
    case None => ""
    case Some(t) => t.left + (":" + (t.right + t.code))
  }

  function Core(s: Slot): string {
    s.name + TypingText(s.typing)
  }

  function Inside(s: Slot): string {
    s.before + Core(s) + s.after
  }

  function SlotText(s: Slot): string {
    "{{" + Inside(s) + "}}"
  }

  predicate AllIn(s: string, cs: string) {
    forall k :: 0 <= k < |s| ==> s[k] in cs
  }

  /** Not beginning and not ending with any of cs. */
  predicate Trimmed(s: string, cs: string) {
    s != "" ==> s[0] !in cs && s[|s| - 1] !in cs
  }

  predicate NoPair(s: string, c: char) {
    forall k :: 0 <= k < |s| - 1 ==> !(s[k] == c && s[k + 1] == c)
  }

  /** The closing pair is the first one, and the blanks are outside the name and the code. */
  predicate SlotOk(s: Slot) {
    && NoPair(Inside(s), '}') && (Inside(s) != "" ==> Inside(s)[|Inside(s)| - 1] != '}')
    && AllIn(s.before, " \t\r\n") && AllIn(s.after, " \t\r\n") && Trimmed(Core(s), " \t\r\n")
    && ':' !in s.name
    && (s.typing.Some? ==>
          && Trimmed(s.name, " \t") && Trimmed(s.typing.value.code, " \t")
          && AllIn(s.typing.value.left, " \t") && AllIn(s.typing.value.right, " \t"))
  }

  /** Of the type codes d, f and b have types of their own and h is raw; anything else is a string. */
  function SlotPart(s: Slot): Part {
    match s.typing
    case None => Ident(s.name, "string", false)
    case Some(t) =>
      match t.code
      case "h" => Ident(s.name, "string", true)
      case "d" => Ident(s.name, "i64", false)
      case "f" => Ident(s.name, "f64", false)
      case "b" => Ident(s.name, "bool", false)
      case _ => Ident(s.name, "string", false)
  }

  // ---- runs ----

  /** A run of text is characters and placeholders. */
  datatype Bit = Chars(text: string) | Hole(slot: Slot)

  function BitText(b: Bit): string {
    match b
    case Chars(text) => text
    case Hole(slot) => SlotText(slot)
  }

  function BitsText(bits: seq<Bit>): string {
    if bits == [] then "" else BitText(bits[0]) + BitsText(bits[1..])
  }

  function BitPart(b: Bit): Part {
    match b
    case Chars(text) => Lit(text)
    case Hole(slot) => SlotPart(slot)
  }

  function BitsParts(bits: seq<Bit>): (parts: seq<Part>)
    ensures |parts| == |bits|
  {
    seq(|bits|, k requires 0 <= k < |bits| => BitPart(bits[k]))
  }

  predicate HasHole(bits: seq<Bit>) {
    exists k :: 0 <= k < |bits| && bits[k].Hole?
  }

  predicate BitOk(b: Bit) {
    match b
    case Chars(text) => text != "" && NoPair(text, '{')
    case Hole(slot) => SlotOk(slot)
  }

  /** Characters open no placeholder, not even together with the one behind them. */
  predicate BitsOk(bits: seq<Bit>) {
    && (forall k :: 0 <= k < |bits| ==> BitOk(bits[k]))
    && (forall k :: 0 <= k < |bits| - 1 && bits[k].Chars? ==> bits[k + 1].Hole? && OpensNone(bits[k].text))
  }

  predicate OpensNone(text: string) {
    text != "" ==> text[|text| - 1] != '{'
  }

  // ---- attributes ----

  datatype SAttr =
    | SBare(gap: string, name: string)
    | SQuoted(gap: string, name: string, left: string, right: string, bits: seq<Bit>)
    | SBraced(gap: string, name: string, left: string, right: string, slot: Slot)

  function ValueText(a: SAttr): string {
    match a
    case SBare(_, _) => ""
    case SQuoted(_, _, _, _, bits) => QUOTE + BitsText(bits) + QUOTE
    case SBraced(_, _, _, _, slot) => SlotText(slot)
  }

  /** An attribute without the white space in front of it. */
  function AttrText(a: SAttr): string {
    if a.SBare? then a.name else a.name + (a.left + ("=" + (a.right + ValueText(a))))
  }

  function AttrsText(attrs: seq<SAttr>): string {
    if attrs == [] then "" else attrs[0].gap + (AttrText(attrs[0]) + AttrsText(attrs[1..]))
  }

  function AttrOf(a: SAttr): Attr {
    match a
    case SBare(_, name) => Bare(name)
    case SQuoted(_, name, _, _, bits) =>
      if HasHole(bits) then Dynamic(name, BitsParts(bits)) else Static(name, BitsText(bits))
    case SBraced(_, name, _, _, slot) => Dynamic(name, [SlotPart(slot)])
  }

  function AttrsOf(attrs: seq<SAttr>): (r: seq<Attr>)
    ensures |r| == |attrs|
  {
    seq(|attrs|, k requires 0 <= k < |attrs| => AttrOf(attrs[k]))
  }

  ghost predicate SAttrOk(a: SAttr) {
    && NameOk(a.name) && White(a.gap)
    && (!a.SBare? ==> White(a.left) && White(a.right))
    && (a.SQuoted? ==> BitsOk(a.bits) && '"' !in BitsText(a.bits))
    && (a.SBraced? ==> SlotOk(a.slot))
  }

  /** A name ends at white space unless a value follows it. */
  ghost predicate SAttrsOk(attrs: seq<SAttr>) {
    && (forall k :: 0 <= k < |attrs| ==> SAttrOk(attrs[k]))
    && (forall k :: 0 <= k < |attrs| - 1 && attrs[k].SBare? ==> attrs[k + 1].gap != "")
  }

  // ---- elements ----

  datatype SElem = SElem(tag: string, attrs: seq<SAttr>, pad: string, ending: Ending)

  /** A tag closed by a slash, an open void tag, or content and a closing tag. */
  datatype Ending = Slash | Open | Content(nodes: SNodes, before: string, after: string)

  /** Runs and elements in turn; a run may be empty. */
  datatype SNodes = Last(run: SRun) | More(run: SRun, child: SElem, rest: SNodes)

  /** A run with the white space around it that only formats the markup. */
  datatype SRun = SRun(lead: string, bits: seq<Bit>, trail: string)

  function RunText(r: SRun): string {
    r.lead + BitsText(r.bits) + r.trail
  }

  function CloseText(tag: string, before: string, after: string): string {
    "</" + (before + tag + after + ">")
  }

  function NodesText(ns: SNodes): string
    decreases ns, 2
  {
    match ns
    case Last(run) => RunText(run)
    case More(run, child, rest) => RunText(run) + (ElemText(child) + NodesText(rest))
  }

  function EndText(tag: string, ending: Ending): string
    decreases ending, 0
  {
    match ending
    case Slash => "/>"
    case Open => ">"
    case Content(nodes, before, after) => ">" + (NodesText(nodes) + CloseText(tag, before, after))
  }

  function ElemText(e: SElem): string
    decreases e, 1
  {
    "<" + (e.tag + ((AttrsText(e.attrs) + e.pad) + EndText(e.tag, e.ending)))
  }

  function RunOf(r: SRun): Nodes {
    if r.bits == [] then Nil
    else if HasHole(r.bits) then Cons(Dyn(BitsParts(r.bits)), Nil)
    else Cons(Text(BitsText(r.bits)), Nil)
  }

  function NodesOf(ns: SNodes): Nodes {
    match ns
    case Last(run) => RunOf(run)
    case More(run, child, rest) =>
      var more := Cons(Child(ElemOf(child)), NodesOf(rest));
      if RunOf(run).Nil? then more else Cons(RunOf(run).head, more)
  }

  function ElemOf(e: SElem): Elem {
    Elem(e.tag, AttrsOf(e.attrs), if VoidName(e.tag) then Void(e.ending.Slash?) else Normal,
         if e.ending.Content? then NodesOf(e.ending.nodes) else Nil)
  }

  predicate VoidName(tag: string) {
    tag in ["area", "base", "br", "col", "embed", "hr", "img", "input", "link", "meta", "source", "track", "wbr"]
  }

  // ---- what an author may write ----

  /** White space at an edge formats if it holds a line break, and then all of it does. */
  ghost predicate RunOk(r: SRun) {
    var s := BitsText(r.bits);
    && BitsOk(r.bits) && '<' !in s && LeadKept(s) && TailKept(s)
    && White(r.lead) && White(r.trail)
    && (r.lead != "" ==> '\n' in r.lead && (s != "" ==> !IsSpace(s[0])))
    && (r.trail != "" ==> '\n' in r.trail && s != "" && !IsSpace(s[|s| - 1]))
  }

  predicate AnyHole(ns: SNodes) {
    HasHole(ns.run.bits) || (ns.More? && AnyHole(ns.rest))
  }

  /** No component is called inside an element, and its tag is closed by its own name. */
  ghost predicate SNodesOk(ns: SNodes)
    decreases ns, 2
  {
    && RunOk(ns.run)
    && (ns.More? ==> SElemOk(ns.child) && !(65 <= ns.child.tag[0] as int <= 90) && SNodesOk(ns.rest))
  }

  /** Placeholder text and child elements exclude each other. */
  ghost predicate EndOk(tag: string, ending: Ending)
    decreases ending, 0
  {
    match ending
    case Slash => true
    case Open => VoidName(tag)
    case Content(nodes, before, after) =>
      && !VoidName(tag) && SNodesOk(nodes) && !(AnyHole(nodes) && nodes.More?)
      && AllIn(before, " \t\r\n") && AllIn(after, " \t\r\n")
  }

  ghost predicate SElemOk(e: SElem)
    decreases e, 1
  {
    && NameOk(e.tag) && e.tag[0] != '!'
    && SAttrsOk(e.attrs) && (e.attrs != [] ==> e.attrs[0].gap != "") && White(e.pad)
    && EndOk(e.tag, e.ending)
  }
}
