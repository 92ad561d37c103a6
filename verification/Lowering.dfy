/**
 * The native lowering: the static HTML and the operations merged into a list of
 * writes, and what running that list produces.
 */
module Lowering {
  import opened Wrappers
  import opened Markup

  // ---- prop values ----

  /** A prop value; a number is the text its formatting yields. */
  datatype Value = Str(s: string) | Bool(b: bool) | Num(digits: Numeral)

  /** What a number is formatted as: none of its characters is special in markup. */
  type Numeral = s: string | forall i :: 0 <= i < |s| ==> s[i] !in SPECIAL witness "0"

  const SPECIAL: string := "&<>\"'"

  type Props = map<string, Value>

  /** What String(x) and the unescaped writes make of a value. */
  function Show(v: Value): string {
    match v
    case Str(s) => s
    case Bool(b) => if b then "true" else "false"
    case Num(digits) => digits
  }

  // ---- escaping ----

  function EscapeChar(c: char, inAttr: bool): string {
    if c == '&' then "&amp;"
    else if c == '<' then "&lt;"
    else if c == '>' then "&gt;"
    else if inAttr && c == '"' then "&quot;"
    else if inAttr && c == '\'' then "&#39;"
    else [c]
  }

  function Escape(s: string, inAttr: bool): string {
    if s == "" then "" else EscapeChar(s[0], inAttr) + Escape(s[1..], inAttr)
  }

  // ---- the emitted statements ----

  /** One write of the generated render procedure. */
  datatype Write =
    | WriteLit(text: string)
    | WriteVerbatim(name: string)
    | WriteBool(name: string)
    | WriteNum(name: string)
    | WriteEscaped(name: string, inAttr: bool)

  /** `lit`: an empty literal emits nothing. */
  function LitWrite(s: string): seq<Write> {
    if s == "" then [] else [WriteLit(s)]
  }

  /** `dyn`: the write depends on the raw mark and the type of the placeholder. */
  function DynWrite(p: Part, inAttr: bool): Write
    requires p.Ident?
  {
    if p.raw then WriteVerbatim(p.name)
    else if p.ptype == "bool" then WriteBool(p.name)
    else if p.ptype != "string" then WriteNum(p.name)
    else WriteEscaped(p.name, inAttr)
  }

  function PartWrites(parts: seq<Part>, inAttr: bool): seq<Write> {
    if parts == [] then []
    else (if parts[0].Ident? then [DynWrite(parts[0], inAttr)] else LitWrite(parts[0].text))
         + PartWrites(parts[1..], inAttr)
  }

  function OpWrites(op: Op): seq<Write> {
    match op.target
    case ToAttr(name) => LitWrite(" " + name + "=" + QUOTE) + PartWrites(op.parts, true) + LitWrite(QUOTE)
    case ToText => PartWrites(op.parts, false)
  }

  /** Positions ascend from the cursor and stay inside the HTML. */
  ghost predicate Ascending(ops: seq<Op>, cursor: nat, end: nat) {
    if ops == [] then cursor <= end
    else cursor <= ops[0].pos && Ascending(ops[1..], ops[0].pos, end)
  }

  lemma {:induction false} AscendingBounds(ops: seq<Op>, cursor: nat, end: nat)
    requires Ascending(ops, cursor, end)
    ensures cursor <= end
    ensures forall i :: 0 <= i < |ops| ==> cursor <= ops[i].pos <= end
    ensures forall i, j :: 0 <= i < j < |ops| ==> ops[i].pos <= ops[j].pos
    decreases |ops|
  {
    if ops != [] {
      AscendingBounds(ops[1..], ops[0].pos, end);
      assert forall i :: 0 < i < |ops| ==> ops[i] == ops[1..][i - 1];
    }
  }

  /** renderBody, as a function: literal slices and operations alternate along the cursor. */
  function Merge(html: string, ops: seq<Op>, cursor: nat): seq<Write>
    requires Ascending(ops, cursor, |html|)
    decreases |ops|
  {
    AscendingBounds(ops, cursor, |html|);
    if ops == [] then LitWrite(html[cursor..])
    else LitWrite(html[cursor..ops[0].pos]) + OpWrites(ops[0]) + Merge(html, ops[1..], ops[0].pos)
  }

  lemma MergeStep(html: string, ops: seq<Op>, k: nat, cursor: nat)
    requires k < |ops| && Ascending(ops[k..], cursor, |html|)
    ensures cursor <= ops[k].pos <= |html| && Ascending(ops[k + 1..], ops[k].pos, |html|)
    ensures Merge(html, ops[k..], cursor)
         == LitWrite(html[cursor..ops[k].pos]) + OpWrites(ops[k]) + Merge(html, ops[k + 1..], ops[k].pos)
  {
    AscendingBounds(ops[k..], cursor, |html|);
    assert ops[k..][0] == ops[k] && ops[k..][1..] == ops[k + 1..];
  }

  lemma MergeEnd(html: string, cursor: nat)
    requires cursor <= |html|
    ensures Merge(html, [], cursor) == LitWrite(html[cursor..])
  {
  }

  /** renderBody: the loop with its moving cursor. */
  method RenderBody(html: string, ops: seq<Op>) returns (w: seq<Write>)
    requires Ascending(ops, 0, |html|)
    ensures w == Merge(html, ops, 0)
  {
    hide Merge; hide OpWrites; hide LitWrite; hide PartWrites; hide Ascending;
    w := [];
    var cursor: nat := 0;
    var k := 0;
    ghost var all := Merge(html, ops, 0);
    assert ops[0..] == ops;
    while k < |ops|
      invariant 0 <= k <= |ops|
      invariant Ascending(ops[k..], cursor, |html|)
      invariant w + Merge(html, ops[k..], cursor) == all
    {
      MergeStep(html, ops, k, cursor);
      var op := ops[k];
      var slice := LitWrite(html[cursor..op.pos]);
      var site := EmitOp(op);
      ghost var rest := Merge(html, ops[k + 1..], op.pos);
      assert w + (slice + site + rest) == w + slice + site + rest;
      w := w + slice + site;
      cursor := op.pos;
      k := k + 1;
    }
    AscendingBounds(ops[k..], cursor, |html|);
    MergeEnd(html, cursor);
    assert ops[k..] == [];
    w := w + LitWrite(html[cursor..]);
  }

  method EmitOp(op: Op) returns (w: seq<Write>)
    ensures w == OpWrites(op)
  {
    match op.target {
      case ToAttr(name) =>
        var parts := EmitParts(op.parts, true);
        w := LitWrite(" " + name + "=" + QUOTE) + parts + LitWrite(QUOTE);
      case ToText =>
        w := EmitParts(op.parts, false);
    }
  }

  method EmitParts(parts: seq<Part>, inAttr: bool) returns (w: seq<Write>)
    ensures w == PartWrites(parts, inAttr)
  {
    hide PartWrites; hide DynWrite;
    w := [];
    var k := 0;
    ghost var all := PartWrites(parts, inAttr);
    assert parts[0..] == parts;
    while k < |parts|
      invariant 0 <= k <= |parts|
      invariant w + PartWrites(parts[k..], inAttr) == all
    {
      PartsStep(parts, k, inAttr);
      var first := if parts[k].Ident? then [DynWrite(parts[k], inAttr)] else LitWrite(parts[k].text);
      assert w + (first + PartWrites(parts[k + 1..], inAttr)) == w + first + PartWrites(parts[k + 1..], inAttr);
      w := w + first;
      k := k + 1;
    }
    NoParts(inAttr);
    assert parts[k..] == [];
  }

  lemma PartsStep(parts: seq<Part>, k: nat, inAttr: bool)
    requires k < |parts|
    ensures PartWrites(parts[k..], inAttr)
         == (if parts[k].Ident? then [DynWrite(parts[k], inAttr)] else LitWrite(parts[k].text))
            + PartWrites(parts[k + 1..], inAttr)
  {
    assert parts[k..][1..] == parts[k + 1..];
  }

  lemma NoParts(inAttr: bool)
    ensures PartWrites([], inAttr) == []
  {
  }

  // ---- running the writes ----

  /** The props a list of parts needs, with values of the types it was scanned with. */
  predicate Typed(p: Part, props: Props) {
    p.Lit? ||
    (p.name in props &&
     (if !p.raw && p.ptype == "bool" then props[p.name].Bool?
      else if !p.raw && p.ptype != "string" then props[p.name].Num?
      else props[p.name].Str?))
  }

  predicate AllTyped(parts: seq<Part>, props: Props) {
    forall i :: 0 <= i < |parts| ==> Typed(parts[i], props)
  }

  predicate OpsTyped(ops: seq<Op>, props: Props) {
    forall i :: 0 <= i < |ops| ==> AllTyped(ops[i].parts, props)
  }

  /** The bytes one write appends; an unknown or ill-typed prop is no program at all. */
  function RunWrite(w: Write, props: Props): Option<string> {
    match w
    case WriteLit(s) => Some(s)
    case WriteVerbatim(n) => if n in props && props[n].Str? then Some(props[n].s) else None
    case WriteBool(n) => if n in props && props[n].Bool? then Some(Show(props[n])) else None
    case WriteNum(n) => if n in props && props[n].Num? then Some(props[n].digits) else None
    case WriteEscaped(n, inAttr) => if n in props && props[n].Str? then Some(Escape(props[n].s, inAttr)) else None
  }

  function RunWrites(ws: seq<Write>, props: Props): Option<string>
    decreases |ws|
  {
    if ws == [] then Some("")
    else
      var first, rest := RunWrite(ws[0], props), RunWrites(ws[1..], props);
      if first.None? || rest.None? then None else Some(first.value + rest.value)
  }

  lemma {:induction false} RunAppend(a: seq<Write>, b: seq<Write>, props: Props)
    ensures var x, y := RunWrites(a, props), RunWrites(b, props);
            RunWrites(a + b, props) == if x.None? || y.None? then None else Some(x.value + y.value)
    decreases |a|
  {
    if a == [] {
      assert a + b == b;
      var y := RunWrites(b, props);
      if y.Some? {
        assert "" + y.value == y.value;
      }
    } else {
      assert (a + b)[1..] == a[1..] + b;
      RunAppend(a[1..], b, props);
      var first, x, y := RunWrite(a[0], props), RunWrites(a[1..], props), RunWrites(b, props);
      if first.Some? && x.Some? && y.Some? {
        assert first.value + (x.value + y.value) == first.value + x.value + y.value;
      }
    }
  }

  lemma RunLit(s: string, props: Props)
    ensures RunWrites(LitWrite(s), props) == Some(s)
  {
    if s != "" {
      assert [WriteLit(s)][1..] == [];
      assert s + "" == s;
    }
  }

  // ---- what a part is written as, and what it is shown as ----

  function Rendered(p: Part, props: Props, inAttr: bool): string
    requires Typed(p, props)
  {
    if p.Lit? then p.text
    else if p.raw then Show(props[p.name])
    else if props[p.name].Str? then Escape(props[p.name].s, inAttr)
    else Show(props[p.name])
  }

  function RenderedAll(parts: seq<Part>, props: Props, inAttr: bool): string
    requires AllTyped(parts, props)
    decreases |parts|
  {
    if parts == [] then "" else Rendered(parts[0], props, inAttr) + RenderedAll(parts[1..], props, inAttr)
  }

  lemma {:induction false} RunParts(parts: seq<Part>, props: Props, inAttr: bool)
    requires AllTyped(parts, props)
    ensures RunWrites(PartWrites(parts, inAttr), props) == Some(RenderedAll(parts, props, inAttr))
    decreases |parts|
  {
    if parts != [] {
      var first := if parts[0].Ident? then [DynWrite(parts[0], inAttr)] else LitWrite(parts[0].text);
      RunParts(parts[1..], props, inAttr);
      RunAppend(first, PartWrites(parts[1..], inAttr), props);
      if parts[0].Lit? {
        RunLit(parts[0].text, props);
      } else {
        assert first[1..] == [];
        assert Rendered(parts[0], props, inAttr) + "" == Rendered(parts[0], props, inAttr);
      }
    }
  }
}
