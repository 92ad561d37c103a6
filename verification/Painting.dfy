/**
 * The browser lowering: the assignments the generated paint procedure makes on a
 * clone of the template, and what they do to the tree.
 */
module Painting {
  import opened Wrappers
  import opened Markup
  import opened Lowering
  import opened Weaving
  import opened Escapes
  import opened Html
  import opened Trees

  // ---- the emitted statements ----

  datatype Assign =
    | SetAttribute(path: seq<nat>, name: string, parts: seq<Part>)
    | SetTextContent(path: seq<nat>, parts: seq<Part>)
    | SetInnerHtml(path: seq<nat>, parts: seq<Part>)

  predicate Mentions(parts: seq<Part>, prop: string) {
    exists i :: 0 <= i < |parts| && parts[i].Ident? && parts[i].name == prop
  }

  /** Whether the operation is emitted: for a whole paint (no prop named), or when it mentions the prop. */
  predicate Chosen(parts: seq<Part>, only: string) {
    only == "" || Mentions(parts, only)
  }

  predicate AnyRaw(parts: seq<Part>) {
    exists i :: 0 <= i < |parts| && parts[i].Ident? && parts[i].raw
  }

  function StepOf(op: Op): Assign {
    match op.target
    case ToAttr(name) => SetAttribute(op.path, name, op.parts)
    case ToText => if AnyRaw(op.parts) then SetInnerHtml(op.path, op.parts) else SetTextContent(op.path, op.parts)
  }

  function PaintSteps(ops: seq<Op>, only: string): seq<Assign> {
    if ops == [] then []
    else (if Chosen(ops[0].parts, only) then [StepOf(ops[0])] else []) + PaintSteps(ops[1..], only)
  }

  /** paintBody: the assignments, or those of one prop. */
  method PaintBody(ops: seq<Op>, only: string) returns (steps: seq<Assign>)
    ensures steps == PaintSteps(ops, only)
  {
    hide PaintSteps; hide StepOf;
    steps := [];
    ghost var all := PaintSteps(ops, only);
    assert ops[0..] == ops;
    var k := 0;
    while k < |ops|
      invariant 0 <= k <= |ops|
      invariant steps + PaintSteps(ops[k..], only) == all
    {
      StepsUnfold(ops, k, only);
      var op := ops[k];
      k := k + 1;
      if only != "" {
        var mentions := ScanMentions(op.parts, only);
        if !mentions {
          continue;
        }
      }
      var step := EmitStep(op);
      steps := steps + [step];
    }
    assert ops[k..] == [];
    StepsDone(only);
  }

  lemma StepsUnfold(ops: seq<Op>, k: nat, only: string)
    requires k < |ops|
    ensures PaintSteps(ops[k..], only)
         == (if Chosen(ops[k].parts, only) then [StepOf(ops[k])] else []) + PaintSteps(ops[k + 1..], only)
  {
    assert ops[k..][1..] == ops[k + 1..];
  }

  lemma StepsDone(only: string)
    ensures PaintSteps([], only) == []
  {
  }

  method ScanMentions(parts: seq<Part>, prop: string) returns (mentions: bool)
    ensures mentions <==> Mentions(parts, prop)
  {
    mentions := false;
    for k := 0 to |parts|
      invariant mentions <==> exists i :: 0 <= i < k && parts[i].Ident? && parts[i].name == prop
    {
      if parts[k].Ident? && parts[k].name == prop {
        mentions := true;
      }
    }
  }

  method EmitStep(op: Op) returns (step: Assign)
    ensures step == StepOf(op)
  {
    match op.target {
      case ToAttr(name) =>
        step := SetAttribute(op.path, name, op.parts);
      case ToText =>
        var anyRaw := false;
        for k := 0 to |op.parts|
          invariant anyRaw <==> exists i :: 0 <= i < k && op.parts[i].Ident? && op.parts[i].raw
        {
          if op.parts[k].Ident? && op.parts[k].raw {
            anyRaw := true;
          }
        }
        step := if anyRaw then SetInnerHtml(op.path, op.parts) else SetTextContent(op.path, op.parts);
    }
  }

  // ---- running them ----

  /** The concatenation of the parts; a prop that is not in scope is an error. */
  function Eval(parts: seq<Part>, env: Props): Option<string> {
    if parts == [] then Some("")
    else
      var first := if parts[0].Lit? then Some(parts[0].text)
                   else if parts[0].name in env then Some(Show(env[parts[0].name])) else None;
      var rest := Eval(parts[1..], env);
      if first.None? || rest.None? then None else Some(first.value + rest.value)
  }

  function Set(d: Dom, target: Target, value: string): Dom
    requires d.El?
  {
    match target
    case ToAttr(name) => d.(attrs := d.attrs[name := value])
    case ToText => d.(kids := AddText(Some(value), DNil))
  }

  /** Assignment at the element `path` reaches through element children, from `depth` steps in. */
  function AssignAt(d: Dom, path: seq<nat>, depth: nat, target: Target, value: string): (r: Option<Dom>)
    requires depth <= |path|
    ensures r.Some? ==> r.value.El?
    decreases d
  {
    match d
    case Txt(_) => None
    case El(tag, attrs, kids) =>
      if depth == |path| then Some(Set(d, target, value))
      else
        var ks := AssignKid(kids, path[depth], path, depth + 1, target, value);
        if ks.None? then None else Some(El(tag, attrs, ks.value))
  }

  /** The j-th element child; text nodes are not counted. */
  function AssignKid(ds: Doms, j: nat, path: seq<nat>, depth: nat, target: Target, value: string): Option<Doms>
    requires depth <= |path|
    decreases ds
  {
    match ds
    case DNil => None
    case DCons(d, rest) =>
      if d.El? && j == 0 then
        var c := AssignAt(d, path, depth, target, value);
        if c.None? then None else Some(DCons(c.value, rest))
      else
        var r := AssignKid(rest, if d.El? then j - 1 else j, path, depth, target, value);
        if r.None? then None else Some(DCons(d, r.value))
  }

  /** Raw markup is not interpreted. */
  function RunStep(d: Dom, s: Assign, env: Props): Option<Dom> {
    var value := Eval(s.parts, env);
    if value.None? || s.SetInnerHtml? then None
    else AssignAt(d, s.path, 0, if s.SetAttribute? then ToAttr(s.name) else ToText, value.value)
  }

  function RunSteps(d: Dom, steps: seq<Assign>, env: Props): Option<Dom>
    decreases |steps|
  {
    if steps == [] then Some(d)
    else
      var next := RunStep(d, steps[0], env);
      if next.None? then None else RunSteps(next.value, steps[1..], env)
  }

  // ---- the same run, seen from inside the tree ----

  predicate Below(op: Op, depth: nat, k: nat) {
    depth < |op.path| && k <= op.path[depth]
  }

  /** Operations on an element `depth` levels down. */
  function RunOps(d: Dom, ops: seq<Op>, only: string, depth: nat, env: Props): Option<Dom>
    requires forall i :: 0 <= i < |ops| ==> depth <= |ops[i].path|
    decreases |ops|
  {
    if ops == [] then Some(d)
    else if !Chosen(ops[0].parts, only) then RunOps(d, ops[1..], only, depth, env)
    else
      var value := Eval(ops[0].parts, env);
      if value.None? then None else
      var next := AssignAt(d, ops[0].path, depth, ops[0].target, value.value);
      if next.None? then None else RunOps(next.value, ops[1..], only, depth, env)
  }

  /** Operations on the element children of an element, of which the first k are already behind. */
  function RunKids(ds: Doms, ops: seq<Op>, only: string, depth: nat, k: nat, env: Props): Option<Doms>
    requires forall i :: 0 <= i < |ops| ==> Below(ops[i], depth, k)
    decreases |ops|
  {
    if ops == [] then Some(ds)
    else if !Chosen(ops[0].parts, only) then RunKids(ds, ops[1..], only, depth, k, env)
    else
      assert Below(ops[0], depth, k);
      var value := Eval(ops[0].parts, env);
      if value.None? then None else
      var next := AssignKid(ds, ops[0].path[depth] - k, ops[0].path, depth + 1, ops[0].target, value.value);
      if next.None? then None else RunKids(next.value, ops[1..], only, depth, k, env)
  }

  predicate RawFree(parts: seq<Part>) {
    !AnyRaw(parts)
  }

  lemma {:induction false} StepsAreOps(d: Dom, ops: seq<Op>, only: string, env: Props)
    requires forall i :: 0 <= i < |ops| ==> RawFree(ops[i].parts)
    ensures RunSteps(d, PaintSteps(ops, only), env) == RunOps(d, ops, only, 0, env)
    decreases |ops|
  {
    hide AssignAt; hide Eval; hide Chosen; hide AnyRaw;
    if ops != [] {
      var here, rest := if Chosen(ops[0].parts, only) then [StepOf(ops[0])] else [], PaintSteps(ops[1..], only);
      if here == [] {
        assert here + rest == rest;
        StepsAreOps(d, ops[1..], only, env);
      } else {
        assert RawFree(ops[0].parts);
        assert (here + rest)[0] == StepOf(ops[0]) && (here + rest)[1..] == rest;
        var next := RunStep(d, StepOf(ops[0]), env);
        if next.Some? {
          StepsAreOps(next.value, ops[1..], only, env);
        }
      }
    }
  }

  lemma {:induction false} OpsAppend(d: Dom, a: seq<Op>, b: seq<Op>, only: string, depth: nat, env: Props)
    requires forall i :: 0 <= i < |a| ==> depth <= |a[i].path|
    requires forall i :: 0 <= i < |b| ==> depth <= |b[i].path|
    ensures forall i :: 0 <= i < |a + b| ==> depth <= |(a + b)[i].path|
    ensures var mid := RunOps(d, a, only, depth, env);
            RunOps(d, a + b, only, depth, env) == if mid.None? then None else RunOps(mid.value, b, only, depth, env)
    decreases |a|
  {
    hide AssignAt; hide Eval; hide Chosen;
    assert forall i :: 0 <= i < |a + b| ==> (a + b)[i] == if i < |a| then a[i] else b[i - |a|];
    if a == [] {
      assert a + b == b;
    } else {
      assert (a + b)[1..] == a[1..] + b;
      if !Chosen(a[0].parts, only) {
        OpsAppend(d, a[1..], b, only, depth, env);
      } else {
        var value := Eval(a[0].parts, env);
        if value.Some? {
          var next := AssignAt(d, a[0].path, depth, a[0].target, value.value);
          if next.Some? {
            OpsAppend(next.value, a[1..], b, only, depth, env);
          }
        }
      }
    }
  }

  lemma {:induction false} KidsAppend(ds: Doms, a: seq<Op>, b: seq<Op>, only: string, depth: nat, k: nat, env: Props)
    requires forall i :: 0 <= i < |a| ==> Below(a[i], depth, k)
    requires forall i :: 0 <= i < |b| ==> Below(b[i], depth, k)
    ensures forall i :: 0 <= i < |a + b| ==> Below((a + b)[i], depth, k)
    ensures var mid := RunKids(ds, a, only, depth, k, env);
            RunKids(ds, a + b, only, depth, k, env)
              == if mid.None? then None else RunKids(mid.value, b, only, depth, k, env)
    decreases |a|
  {
    assert forall i :: 0 <= i < |a + b| ==> (a + b)[i] == if i < |a| then a[i] else b[i - |a|];
    if a == [] {
      assert a + b == b;
    } else {
      assert (a + b)[1..] == a[1..] + b;
      if !Chosen(a[0].parts, only) {
        KidsAppend(ds, a[1..], b, only, depth, k, env);
      } else {
        var value := Eval(a[0].parts, env);
        if value.Some? {
          var next := AssignKid(ds, a[0].path[depth] - k, a[0].path, depth + 1, a[0].target, value.value);
          if next.Some? {
            KidsAppend(next.value, a[1..], b, only, depth, k, env);
          }
        }
      }
    }
  }

  /** Operations below an element leave its tag and attributes alone. */
  lemma {:induction false} OpsOnKids(tag: string, m: map<string, string>, ds: Doms, ops: seq<Op>, only: string,
                                     depth: nat, env: Props)
    requires forall i :: 0 <= i < |ops| ==> Below(ops[i], depth, 0)
    ensures forall i :: 0 <= i < |ops| ==> depth <= |ops[i].path|
    ensures var ks := RunKids(ds, ops, only, depth, 0, env);
            RunOps(El(tag, m, ds), ops, only, depth, env) == if ks.None? then None else Some(El(tag, m, ks.value))
    decreases |ops|
  {
    assert forall i :: 0 <= i < |ops| ==> Below(ops[i], depth, 0) && depth <= |ops[i].path|;
    if ops != [] {
      if !Chosen(ops[0].parts, only) {
        OpsOnKids(tag, m, ds, ops[1..], only, depth, env);
      } else {
        var value := Eval(ops[0].parts, env);
        if value.Some? {
          var next := AssignKid(ds, ops[0].path[depth], ops[0].path, depth + 1, ops[0].target, value.value);
          if next.Some? {
            OpsOnKids(tag, m, next.value, ops[1..], only, depth, env);
          }
        }
      }
    }
  }

  /** Operations on the child at hand are operations on that child. */
  lemma {:induction false} KidsHere(d: Dom, rest: Doms, ops: seq<Op>, only: string, depth: nat, k: nat, env: Props)
    requires d.El? && forall i :: 0 <= i < |ops| ==> Below(ops[i], depth, k) && ops[i].path[depth] == k
    ensures forall i :: 0 <= i < |ops| ==> depth + 1 <= |ops[i].path|
    ensures var c := RunOps(d, ops, only, depth + 1, env);
            RunKids(DCons(d, rest), ops, only, depth, k, env) == if c.None? then None else Some(DCons(c.value, rest))
    decreases |ops|
  {
    assert forall i :: 0 <= i < |ops| ==> Below(ops[i], depth, k) && depth + 1 <= |ops[i].path|;
    if ops != [] {
      if !Chosen(ops[0].parts, only) {
        KidsHere(d, rest, ops[1..], only, depth, k, env);
      } else {
        var value := Eval(ops[0].parts, env);
        if value.Some? {
          var next := AssignAt(d, ops[0].path, depth + 1, ops[0].target, value.value);
          if next.Some? {
            KidsHere(next.value, rest, ops[1..], only, depth, k, env);
          }
        }
      }
    }
  }

  /** Operations on later children pass over the node at hand. */
  lemma {:induction false} KidsBeyond(d: Dom, rest: Doms, ops: seq<Op>, only: string, depth: nat, k: nat, env: Props)
    requires var next := if d.El? then k + 1 else k; forall i :: 0 <= i < |ops| ==> Below(ops[i], depth, next)
    ensures forall i :: 0 <= i < |ops| ==> Below(ops[i], depth, k)
    ensures var r := RunKids(rest, ops, only, depth, if d.El? then k + 1 else k, env);
            RunKids(DCons(d, rest), ops, only, depth, k, env) == if r.None? then None else Some(DCons(d, r.value))
    decreases |ops|
  {
    var after := if d.El? then k + 1 else k;
    assert forall i :: 0 <= i < |ops| ==> Below(ops[i], depth, after) && Below(ops[i], depth, k);
    if ops != [] {
      if !Chosen(ops[0].parts, only) {
        KidsBeyond(d, rest, ops[1..], only, depth, k, env);
      } else {
        var value := Eval(ops[0].parts, env);
        if value.Some? {
          var j := ops[0].path[depth];
          var next := AssignKid(rest, j - after, ops[0].path, depth + 1, ops[0].target, value.value);
          if next.Some? {
            KidsBeyond(d, next.value, ops[1..], only, depth, k, env);
          }
        }
      }
    }
  }

  // ---- painting an element ----

  /** What stands at the sites after a paint of `only` over what stood there before. */
  function Over(base: Fill, only: string, env: Props): Fill {
    (parts, inAttr) => if Chosen(parts, only) then Eval(parts, env) else base(parts, inAttr)
  }

  /** The chosen sites can be evaluated. */
  function Able(only: string, env: Props): Test {
    (parts, inAttr) => Chosen(parts, only) ==> Eval(parts, env).Some?
  }

  /** The attribute assignments of one element, on its attributes alone. */
  function RunAttrs(m: map<string, string>, attrs: seq<Attr>, only: string, env: Props): map<string, string>
    decreases |attrs|
  {
    if attrs == [] then m else RunAttrs(RunAttr(m, attrs[0], only, env), attrs[1..], only, env)
  }

  function RunAttr(m: map<string, string>, a: Attr, only: string, env: Props): map<string, string> {
    if a.Dynamic? && Chosen(a.parts, only) && Eval(a.parts, env).Some? then m[a.name := Eval(a.parts, env).value] else m
  }

  /** The tree once the assignments of `only` have run over a tree whose sites held `base`. */
  function PaintTree(e: Elem, base: Fill, only: string, env: Props): Dom {
    El(e.tag, RunAttrs(AttrsTree(e.attrs, base), e.attrs, only, env),
       if e.close.Void? then DNil else PaintForest(e.nodes, base, only, env))
  }

  function PaintForest(ns: Nodes, base: Fill, only: string, env: Props): Doms {
    match ns
    case Nil => DNil
    case Cons(Text(run), rest) => DCons(Txt(Decode(run)), PaintForest(rest, base, only, env))
    case Cons(Dyn(parts), rest) => AddText(Over(base, only, env)(parts, false), PaintForest(rest, base, only, env))
    case Cons(Child(e), rest) => DCons(PaintTree(e, base, only, env), PaintForest(rest, base, only, env))
  }

  lemma {:induction false} AttrsOpsPaint(d: Dom, attrs: seq<Attr>, path: seq<nat>, pos: nat, only: string, env: Props)
    requires d.El? && AttrsEach(attrs, Able(only, env))
    ensures var ops := AttrsOps(attrs, path, pos);
      (forall i :: 0 <= i < |ops| ==> ops[i].path == path)
      && RunOps(d, ops, only, |path|, env) == Some(d.(attrs := RunAttrs(d.attrs, attrs, only, env)))
    decreases |attrs|
  {
    hide AttrsOps; hide AttrHtml; hide AttrText; hide SiteText; hide Chosen; hide Eval; hide RunOps;
    AttrsUnfold(attrs, path, pos, Blank());
    if attrs == [] {
      NothingRuns(d, only, |path|, env);
    } else {
      var a, next := attrs[0], pos + |AttrHtml(attrs[0])|;
      var rest := AttrsOps(attrs[1..], path, next);
      AbleHead(attrs, only, env);
      AttrsOpsPaint(d.(attrs := RunAttr(d.attrs, a, only, env)), attrs[1..], path, next, only, env);
      if a.Dynamic? {
        OneRuns(d, a, path, pos, rest, only, env);
      } else {
        assert [] + rest == rest;
      }
    }
  }

  lemma NothingRuns(d: Dom, only: string, depth: nat, env: Props)
    ensures RunOps(d, [], only, depth, env) == Some(d)
  {
  }

  lemma AbleHead(attrs: seq<Attr>, only: string, env: Props)
    requires attrs != [] && AttrsEach(attrs, Able(only, env))
    ensures AttrsEach(attrs[1..], Able(only, env))
    ensures attrs[0].Dynamic? && Chosen(attrs[0].parts, only) ==> Eval(attrs[0].parts, env).Some?
  {
    assert attrs[0].Dynamic? ==> Able(only, env)(attrs[0].parts, true);
  }

  /** One attribute assignment at the element at hand, then the rest. */
  lemma OneRuns(d: Dom, a: Attr, path: seq<nat>, pos: nat, rest: seq<Op>, only: string, env: Props)
    requires d.El? && a.Dynamic? && forall i :: 0 <= i < |rest| ==> |path| <= |rest[i].path|
    requires Chosen(a.parts, only) ==> Eval(a.parts, env).Some?
    ensures var ops := [Op(ToAttr(a.name), path, a.parts, pos)] + rest;
      (forall i :: 0 <= i < |ops| ==> |path| <= |ops[i].path|)
      && RunOps(d, ops, only, |path|, env)
        == RunOps(d.(attrs := RunAttr(d.attrs, a, only, env)), rest, only, |path|, env)
  {
    var ops := [Op(ToAttr(a.name), path, a.parts, pos)] + rest;
    assert ops[0] == Op(ToAttr(a.name), path, a.parts, pos) && ops[1..] == rest;
    assert forall i :: 0 < i < |ops| ==> ops[i] == rest[i - 1];
  }

  /** Every operation is on the element at the path or on one inside it. */
  predicate Under(ops: seq<Op>, path: seq<nat>) {
    forall i :: 0 <= i < |ops| ==> |path| <= |ops[i].path| && ops[i].path[..|path|] == path
  }

  lemma UnderAppend(a: seq<Op>, b: seq<Op>, path: seq<nat>)
    requires Under(a, path) && Under(b, path)
    ensures Under(a + b, path)
  {
    assert forall i :: 0 <= i < |a + b| ==> (a + b)[i] == if i < |a| then a[i] else b[i - |a|];
  }

  lemma UnderChild(ops: seq<Op>, path: seq<nat>, k: nat)
    requires Under(ops, path + [k])
    ensures Under(ops, path)
    ensures forall i :: 0 <= i < |ops| ==> Below(ops[i], |path|, k) && ops[i].path[|path|] == k
  {
    forall i | 0 <= i < |ops|
      ensures |path| < |ops[i].path| && ops[i].path[..|path|] == path && ops[i].path[|path|] == k
    {
      var p := ops[i].path[..|path| + 1];
      assert p == path + [k];
      assert p[..|path|] == path && p[|path|] == k;
    }
  }

  // ---- trees by their attributes and their sites ----

  /** The attributes an element of a tree has, given the ones it was scanned with. */
  type Dress = seq<Attr> -> map<string, string>

  /** A tree whose elements are dressed and whose text sites are filled. */
  function Attired(e: Elem, dress: Dress, fill: Fill): Dom {
    El(e.tag, dress(e.attrs), if e.close.Void? then DNil else AttiredForest(e.nodes, dress, fill))
  }

  function AttiredForest(ns: Nodes, dress: Dress, fill: Fill): Doms {
    match ns
    case Nil => DNil
    case Cons(Text(run), rest) => DCons(Txt(Decode(run)), AttiredForest(rest, dress, fill))
    case Cons(Dyn(parts), rest) => AddText(fill(parts, false), AttiredForest(rest, dress, fill))
    case Cons(Child(e), rest) => DCons(Attired(e, dress, fill), AttiredForest(rest, dress, fill))
  }

  /** What a parser gives. */
  function Worn(fill: Fill): Dress {
    attrs => AttrsTree(attrs, fill)
  }

  /** What the assignments of `only` leave. */
  function After(dress: Dress, only: string, env: Props): Dress {
    attrs => RunAttrs(dress(attrs), attrs, only, env)
  }

  lemma {:induction false} TreeIsAttired(e: Elem, fill: Fill)
    ensures Tree(e, fill) == Attired(e, Worn(fill), fill)
    decreases e
  {
    ForestIsAttired(e.nodes, fill);
  }

  lemma {:induction false} ForestIsAttired(ns: Nodes, fill: Fill)
    ensures Forest(ns, fill) == AttiredForest(ns, Worn(fill), fill)
    decreases ns
  {
    if ns.Cons? {
      if ns.head.Child? {
        TreeIsAttired(ns.head.elem, fill);
      }
      ForestIsAttired(ns.tail, fill);
    }
  }

  lemma {:induction false} PaintIsAttired(e: Elem, base: Fill, only: string, env: Props)
    ensures PaintTree(e, base, only, env) == Attired(e, After(Worn(base), only, env), Over(base, only, env))
    decreases e
  {
    hide Over;
    PaintForestIsAttired(e.nodes, base, only, env);
  }

  lemma {:induction false} PaintForestIsAttired(ns: Nodes, base: Fill, only: string, env: Props)
    ensures PaintForest(ns, base, only, env) == AttiredForest(ns, After(Worn(base), only, env), Over(base, only, env))
    decreases ns
  {
    hide Over; hide After;
    if ns.Cons? {
      if ns.head.Child? {
        PaintIsAttired(ns.head.elem, base, only, env);
      }
      PaintForestIsAttired(ns.tail, base, only, env);
    }
  }

  /** Placeholder text is the only content of its element. */
  lemma DynAlone(ns: Nodes)
    requires NodesOk(ns) && Separate(ns) && HasDyn(ns)
    ensures ns.Cons? && ns.head.Dyn? && ns.tail.Nil?
  {
    assert !HasChild(ns);
    assert HasChild(ns) <==> ns.head.Child? || HasChild(ns.tail);
    assert HasChild(ns.tail) <==> ns.tail.Cons? && (ns.tail.head.Child? || HasChild(ns.tail.tail));
  }

  lemma TextPaints(tag: string, m: map<string, string>, parts: seq<Part>, path: seq<nat>, pos: nat, dress: Dress,
                   base: Fill, only: string, env: Props)
    requires Able(only, env)(parts, false)
    ensures var ns := Cons(Dyn(parts), Nil);
      Under(NodesOps(ns, path, 0, pos), path)
      && RunOps(El(tag, m, AttiredForest(ns, dress, base)), NodesOps(ns, path, 0, pos), only, |path|, env)
      == Some(El(tag, m, AttiredForest(ns, After(dress, only, env), Over(base, only, env))))
  {
    var op := Op(ToText, path, parts, pos);
    assert NodesOps(Cons(Dyn(parts), Nil), path, 0, pos) == [op];
    assert [op][1..] == [];
    assert path[..|path|] == path;
    if Chosen(parts, only) {
      var value := Eval(parts, env).value;
      assert Over(base, only, env)(parts, false) == Some(value);
    }
  }

  /** Painting an element's operations changes exactly the chosen sites, wherever in the tree they are. */
  lemma {:induction false} ElemPaints(e: Elem, path: seq<nat>, pos: nat, dress: Dress, base: Fill, only: string,
                                      env: Props)
    requires ElemOk(e) && Each(e, Able(only, env))
    ensures Under(ElemOps(e, path, pos), path)
    ensures RunOps(Attired(e, dress, base), ElemOps(e, path, pos), only, |path|, env)
      == Some(Attired(e, After(dress, only, env), Over(base, only, env)))
    decreases e
  {
    hide RunOps; hide RunKids; hide AttrsOps; hide NodesOps; hide AttiredForest; hide AttrsEach; hide NodesEach;
    hide Able;
    hide Over; hide NodesOk; hide Separate; hide RunAttrs;
    var d := Attired(e, dress, base);
    var outer := AttrsOps(e.attrs, path, pos + 1 + |e.tag|);
    AttrsOpsPaint(d, e.attrs, path, pos + 1 + |e.tag|, only, env);
    AllUnder(outer, path);
    if e.close.Void? {
      assert outer + [] == outer;
    } else {
      var q := pos + |OpenHtml(e)|;
      var inner := NodesOps(e.nodes, path, 0, q);
      var m := RunAttrs(d.attrs, e.attrs, only, env);
      InnerPaints(e.tag, m, e.nodes, path, q, dress, base, only, env);
      UnderAppend(outer, inner, path);
      OpsAppend(d, outer, inner, only, |path|, env);
    }
  }

  lemma AllUnder(ops: seq<Op>, path: seq<nat>)
    requires forall i :: 0 <= i < |ops| ==> ops[i].path == path
    ensures Under(ops, path)
  {
    assert path[..|path|] == path;
  }

  lemma {:induction false} InnerPaints(tag: string, m: map<string, string>, ns: Nodes, path: seq<nat>, pos: nat,
                                       dress: Dress, base: Fill, only: string, env: Props)
    requires NodesOk(ns) && Separate(ns) && NodesEach(ns, Able(only, env))
    ensures Under(NodesOps(ns, path, 0, pos), path)
    ensures RunOps(El(tag, m, AttiredForest(ns, dress, base)), NodesOps(ns, path, 0, pos), only, |path|, env)
         == Some(El(tag, m, AttiredForest(ns, After(dress, only, env), Over(base, only, env))))
    decreases ns, 1
  {
    hide RunOps; hide RunKids; hide NodesOps; hide AttiredForest; hide After; hide Able; hide Over;
    if HasDyn(ns) {
      DynAlone(ns);
      TextPaints(tag, m, ns.head.parts, path, pos, dress, base, only, env);
    } else {
      NodesPaint(ns, path, 0, pos, dress, base, only, env);
      OpsOnKids(tag, m, AttiredForest(ns, dress, base), NodesOps(ns, path, 0, pos), only, |path|, env);
    }
  }

  lemma {:induction false} NodesPaint(ns: Nodes, path: seq<nat>, k: nat, pos: nat, dress: Dress, base: Fill,
                                      only: string, env: Props)
    requires NodesOk(ns) && !HasDyn(ns) && NodesEach(ns, Able(only, env))
    ensures Under(NodesOps(ns, path, k, pos), path)
    ensures forall i :: 0 <= i < |NodesOps(ns, path, k, pos)| ==> Below(NodesOps(ns, path, k, pos)[i], |path|, k)
    ensures RunKids(AttiredForest(ns, dress, base), NodesOps(ns, path, k, pos), only, |path|, k, env)
      == Some(AttiredForest(ns, After(dress, only, env), Over(base, only, env)))
    decreases ns, 0
  {
    hide RunOps; hide RunKids; hide ElemOps; hide ElemHtml; hide Attired; hide After; hide Able; hide Over; hide Decode;
    hide ElemOk; hide Each;
    hide NodesOps; hide Under; hide Below;
    NodesUnfold(ns, path, k, pos);
    match ns
    case Nil =>
      NoKids(path, k, only, env);
    case Cons(Text(run), rest) =>
      NodesPaint(rest, path, k, pos + |run|, dress, base, only, env);
      KidsBeyond(Txt(Decode(run)), AttiredForest(rest, dress, base), NodesOps(rest, path, k, pos + |run|), only,
        |path|, k, env);
    case Cons(Child(e), rest) =>
      var next := pos + |ElemHtml(e)|;
      var here, later := ElemOps(e, path + [k], pos), NodesOps(rest, path, k + 1, next);
      assert |path + [k]| == |path| + 1;
      ElemPaints(e, path + [k], pos, dress, base, only, env);
      UnderChild(here, path, k);
      NodesPaint(rest, path, k + 1, next, dress, base, only, env);
      TreesAreElements(e, dress, base, only, env);
      KidsHere(Attired(e, dress, base), AttiredForest(rest, dress, base), here, only, |path|, k, env);
      KidsBeyond(Attired(e, After(dress, only, env), Over(base, only, env)), AttiredForest(rest, dress, base), later,
        only, |path|, k, env);
      UnderAppend(here, later, path);
      KidsAppend(AttiredForest(ns, dress, base), here, later, only, |path|, k, env);
  }

  lemma NoKids(path: seq<nat>, k: nat, only: string, env: Props)
    ensures Under([], path) && RunKids(DNil, [], only, |path|, k, env) == Some(DNil)
  {
  }

  lemma TreesAreElements(e: Elem, dress: Dress, base: Fill, only: string, env: Props)
    ensures Attired(e, dress, base).El? && Attired(e, After(dress, only, env), Over(base, only, env)).El?
  {
  }
}
