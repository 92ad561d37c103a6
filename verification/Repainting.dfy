/**
 * Repainting one prop: running only the assignments that mention it, on an
 * element painted before.
 */
module Repainting {
  import opened Wrappers
  import opened Markup
  import opened Lowering
  import opened Weaving
  import opened Escapes
  import opened Html
  import opened Trees
  import opened Painting
  import opened Agreement

  // ---- what the assignments leave in the attributes of one element ----

  /** The last attribute of its name that a paint of `only` assigns. */
  predicate LastChosen(attrs: seq<Attr>, i: nat, only: string) {
    i < |attrs| && attrs[i].Dynamic? && Chosen(attrs[i].parts, only)
    && forall j :: i < j < |attrs| && attrs[j].Dynamic? && Chosen(attrs[j].parts, only) ==>
      attrs[j].name != attrs[i].name
  }

  predicate Assigns(attrs: seq<Attr>, only: string, name: string) {
    exists j :: 0 <= j < |attrs| && attrs[j].Dynamic? && Chosen(attrs[j].parts, only) && attrs[j].name == name
  }

  lemma {:induction false} NotAssigned(m: map<string, string>, attrs: seq<Attr>, only: string, env: Props, name: string)
    requires !Assigns(attrs, only, name)
    ensures var r := RunAttrs(m, attrs, only, env);
            (name in r <==> name in m) && (name in m ==> r[name] == m[name])
    decreases |attrs|
  {
    hide Chosen; hide Eval;
    if attrs != [] {
      assert forall j :: 0 <= j < |attrs[1..]| ==> attrs[1..][j] == attrs[j + 1];
      NotAssigned(RunAttr(m, attrs[0], only, env), attrs[1..], only, env, name);
    }
  }

  lemma {:induction false} LastAssigned(m: map<string, string>, attrs: seq<Attr>, only: string, env: Props, i: nat)
    requires LastChosen(attrs, i, only) && AttrsEach(attrs, Able(only, env))
    ensures Eval(attrs[i].parts, env).Some?
    ensures attrs[i].name in RunAttrs(m, attrs, only, env)
    ensures RunAttrs(m, attrs, only, env)[attrs[i].name] == Eval(attrs[i].parts, env).value
    decreases |attrs|
  {
    hide Chosen; hide Eval;
    AbleHead(attrs, only, env);
    assert forall j :: 0 <= j < |attrs[1..]| ==> attrs[1..][j] == attrs[j + 1];
    if i > 0 {
      LastAssigned(RunAttr(m, attrs[0], only, env), attrs[1..], only, env, i - 1);
    } else {
      NotAssigned(RunAttr(m, attrs[0], only, env), attrs[1..], only, env, attrs[0].name);
    }
  }

  lemma {:induction false} LastChosenExists(attrs: seq<Attr>, only: string, i: nat) returns (l: nat)
    requires i < |attrs| && attrs[i].Dynamic? && Chosen(attrs[i].parts, only)
    ensures LastChosen(attrs, l, only) && attrs[l].name == attrs[i].name
    decreases |attrs| - i
  {
    if j: nat :|
      i < j < |attrs| && attrs[j].Dynamic? && Chosen(attrs[j].parts, only) && attrs[j].name == attrs[i].name
    {
      l := LastChosenExists(attrs, only, j);
    } else {
      l := i;
    }
  }

  // ---- running out of scope ----

  /** Operations that run to the end could all be evaluated. */
  lemma {:induction false} RanMeansAble(d: Dom, ops: seq<Op>, only: string, env: Props)
    requires RunOps(d, ops, only, 0, env).Some?
    ensures AllPass(ops, Able(only, env))
    decreases |ops|
  {
    if ops != [] {
      var next := if Chosen(ops[0].parts, only) then
        AssignAt(d, ops[0].path, 0, ops[0].target, Eval(ops[0].parts, env).value)
                  else Some(d);
      RanMeansAble(next.value, ops[1..], only, env);
      assert Able(only, env)(ops[0].parts, ops[0].target.ToAttr?);
      assert forall i :: 0 < i < |ops| ==> ops[i] == ops[1..][i - 1];
    }
  }

  /** A site that mentions the prop mentions no other. */
  function Alone(prop: string): Test {
    (parts, inAttr) => Mentions(parts, prop) ==> NamesOnly(parts, prop)
  }

  predicate NamesOnly(parts: seq<Part>, prop: string) {
    forall i :: 0 <= i < |parts| && parts[i].Ident? ==> parts[i].name == prop
  }

  lemma {:induction false} EvalIn(parts: seq<Part>, env: Props)
    ensures Eval(parts, env).Some? <==> forall i :: 0 <= i < |parts| && parts[i].Ident? ==> parts[i].name in env
    decreases |parts|
  {
    if parts != [] {
      EvalIn(parts[1..], env);
      assert forall i :: 0 < i < |parts| ==> parts[i] == parts[1..][i - 1];
    }
  }

  lemma {:induction false} EvalSame(parts: seq<Part>, env: Props, env': Props)
    requires forall i :: 0 <= i < |parts| && parts[i].Ident? ==>
      parts[i].name in env && parts[i].name in env' && env[parts[i].name] == env'[parts[i].name]
    ensures Eval(parts, env) == Eval(parts, env')
    decreases |parts|
  {
    if parts != [] {
      assert forall i :: 0 <= i < |parts[1..]| ==> parts[1..][i] == parts[i + 1];
      EvalSame(parts[1..], env, env');
    }
  }

  /** With the new prop alone in scope, a site can be evaluated exactly when it mentions no other prop. */
  lemma AloneIsAble(parts: seq<Part>, inAttr: bool, prop: string, v: Value)
    requires prop != ""
    ensures Alone(prop)(parts, inAttr) <==> Able(prop, map[prop := v])(parts, inAttr)
  {
    EvalIn(parts, map[prop := v]);
  }

  lemma SiteRepaints(parts: seq<Part>, inAttr: bool, props: Props, prop: string, v: Value)
    requires prop != "" && Alone(prop)(parts, inAttr) && Able("", props)(parts, inAttr)
    ensures Over(Over(Blank(), "", props), prop, map[prop := v])(parts, inAttr)
      == Over(Blank(), "", props[prop := v])(parts, inAttr)
  {
    var base := Over(Blank(), "", props);
    assert Chosen(parts, "") && base(parts, inAttr) == Eval(parts, props);
    assert Over(Blank(), "", props[prop := v])(parts, inAttr) == Eval(parts, props[prop := v]);
    assert Over(base, prop, map[prop := v])(parts, inAttr)
        == if Chosen(parts, prop) then Eval(parts, map[prop := v]) else base(parts, inAttr);
    EvalIn(parts, props);
    if Mentions(parts, prop) {
      EvalSame(parts, map[prop := v], props[prop := v]);
    } else {
      EvalSame(parts, props, props[prop := v]);
    }
  }

  // ---- when a repaint leaves the attributes right ----

  /**
   * The last attribute of a name that mentions the prop has the value of the last
   * attribute of that name: a repaint runs the first of these, a paint ends with the
   * second. Without two dynamic attributes of one name they are the same attribute.
   */
  ghost predicate Settled(attrs: seq<Attr>, props: Props, prop: string) {
    forall i: nat, l: nat ::
      LastChosen(attrs, i, prop) && LastChosen(attrs, l, "") && attrs[i].name == attrs[l].name ==>
        Eval(attrs[i].parts, props) == Eval(attrs[l].parts, props)
  }

  ghost predicate AllSettled(e: Elem, props: Props, prop: string) {
    Settled(e.attrs, props, prop) && NodesSettled(e.nodes, props, prop)
  }

  ghost predicate NodesSettled(ns: Nodes, props: Props, prop: string) {
    ns.Cons? ==> (ns.head.Child? ==> AllSettled(ns.head.elem, props, prop)) && NodesSettled(ns.tail, props, prop)
  }

  /** What one repainted name holds, against what a fresh paint gives it. */
  lemma NameRepaints(m: map<string, string>, attrs: seq<Attr>, props: Props, prop: string, v: Value, i: nat, l: nat)
    requires prop != "" && AttrsEach(attrs, Able("", props)) && AttrsEach(attrs, Alone(prop))
    requires LastChosen(attrs, i, prop) && LastChosen(attrs, l, "") && attrs[i].name == attrs[l].name
    ensures var x := RunAttrs(RunAttrs(m, attrs, "", props), attrs, prop, map[prop := v]);
      var y := RunAttrs(m, attrs, "", props[prop := v]);
      attrs[i].name in x && attrs[i].name in y
      && Some(x[attrs[i].name]) == Eval(attrs[i].parts, props[prop := v])
      && Some(y[attrs[i].name]) == Eval(attrs[l].parts, props[prop := v])
  {
    hide RunAttrs; hide Chosen; hide Eval; hide Alone; hide Able;
    AttrsAble(attrs, props, prop, v);
    LastAssigned(RunAttrs(m, attrs, "", props), attrs, prop, map[prop := v], i);
    LastAssigned(m, attrs, "", props[prop := v], l);
    assert Alone(prop)(attrs[i].parts, true) && Able("", props)(attrs[i].parts, true);
    MentionRepaints(attrs[i].parts, props, prop, v);
  }

  lemma AttrsAble(attrs: seq<Attr>, props: Props, prop: string, v: Value)
    requires prop != "" && AttrsEach(attrs, Able("", props)) && AttrsEach(attrs, Alone(prop))
    ensures AttrsEach(attrs, Able("", props[prop := v])) && AttrsEach(attrs, Able(prop, map[prop := v]))
  {
    forall i | 0 <= i < |attrs| && attrs[i].Dynamic?
      ensures Able("", props[prop := v])(attrs[i].parts, true) && Able(prop, map[prop := v])(attrs[i].parts, true)
    {
      assert Able("", props)(attrs[i].parts, true) && Alone(prop)(attrs[i].parts, true);
      EvalIn(attrs[i].parts, props);
      EvalIn(attrs[i].parts, props[prop := v]);
      AloneIsAble(attrs[i].parts, true, prop, v);
    }
  }

  /** A site that mentions only the prop has its new value in either scope. */
  lemma MentionRepaints(parts: seq<Part>, props: Props, prop: string, v: Value)
    requires prop != "" && Chosen(parts, prop) && Alone(prop)(parts, true)
    ensures Eval(parts, map[prop := v]) == Eval(parts, props[prop := v])
  {
    EvalSame(parts, map[prop := v], props[prop := v]);
  }

  /** A site that does not mention the prop keeps its value. */
  lemma OtherKeeps(parts: seq<Part>, props: Props, prop: string, v: Value)
    requires prop != "" && !Chosen(parts, prop) && Eval(parts, props).Some?
    ensures Eval(parts, props) == Eval(parts, props[prop := v])
  {
    EvalIn(parts, props);
    EvalSame(parts, props, props[prop := v]);
  }

  lemma NameAgreesAfter(m: map<string, string>, attrs: seq<Attr>, props: Props, prop: string, v: Value, name: string)
    requires prop != "" && AttrsEach(attrs, Able("", props)) && AttrsEach(attrs, Alone(prop))
    requires Settled(attrs, props[prop := v], prop)
    ensures var x := RunAttrs(RunAttrs(m, attrs, "", props), attrs, prop, map[prop := v]);
      var y := RunAttrs(m, attrs, "", props[prop := v]);
      (name in x <==> name in y) && (name in x ==> x[name] == y[name])
  {
    hide RunAttrs; hide Eval; hide Alone; hide Able; hide LastChosen;
    if Assigns(attrs, "", name) {
      var j: nat :| j < |attrs| && attrs[j].Dynamic? && Chosen(attrs[j].parts, "") && attrs[j].name == name;
      var l := LastChosenExists(attrs, "", j);
      if Assigns(attrs, prop, name) {
        var k: nat :| k < |attrs| && attrs[k].Dynamic? && Chosen(attrs[k].parts, prop) && attrs[k].name == name;
        var i := LastChosenExists(attrs, prop, k);
        NameRepaints(m, attrs, props, prop, v, i, l);
      } else {
        NameKeeps(m, attrs, props, prop, v, l);
      }
    } else {
      assert !Assigns(attrs, prop, name);
      NotAssigned(RunAttrs(m, attrs, "", props), attrs, prop, map[prop := v], name);
      NotAssigned(m, attrs, "", props, name);
      NotAssigned(m, attrs, "", props[prop := v], name);
    }
  }

  lemma NameKeeps(m: map<string, string>, attrs: seq<Attr>, props: Props, prop: string, v: Value, l: nat)
    requires prop != "" && AttrsEach(attrs, Able("", props)) && AttrsEach(attrs, Alone(prop))
    requires LastChosen(attrs, l, "") && !Assigns(attrs, prop, attrs[l].name)
    ensures var x := RunAttrs(RunAttrs(m, attrs, "", props), attrs, prop, map[prop := v]);
      var y := RunAttrs(m, attrs, "", props[prop := v]);
      attrs[l].name in x && attrs[l].name in y && x[attrs[l].name] == y[attrs[l].name]
  {
    hide RunAttrs; hide Eval; hide Alone; hide Able;
    AttrsAble(attrs, props, prop, v);
    LastAssigned(m, attrs, "", props, l);
    LastAssigned(m, attrs, "", props[prop := v], l);
    NotAssigned(RunAttrs(m, attrs, "", props), attrs, prop, map[prop := v], attrs[l].name);
    OtherKeeps(attrs[l].parts, props, prop, v);
  }

  lemma AttrsRepaintIff(m: map<string, string>, attrs: seq<Attr>, props: Props, prop: string, v: Value)
    requires prop != "" && AttrsEach(attrs, Able("", props)) && AttrsEach(attrs, Alone(prop))
    ensures RunAttrs(RunAttrs(m, attrs, "", props), attrs, prop, map[prop := v])
         == RunAttrs(m, attrs, "", props[prop := v])
       <==> Settled(attrs, props[prop := v], prop)
  {
    hide RunAttrs; hide Eval; hide Alone; hide Able; hide LastChosen;
    var x := RunAttrs(RunAttrs(m, attrs, "", props), attrs, prop, map[prop := v]);
    var y := RunAttrs(m, attrs, "", props[prop := v]);
    if x == y {
      forall i: nat, l: nat | LastChosen(attrs, i, prop) && LastChosen(attrs, l, "") && AreNamedAlike(attrs, i, l)
        ensures Eval(attrs[i].parts, props[prop := v]) == Eval(attrs[l].parts, props[prop := v])
      {
        NameRepaints(m, attrs, props, prop, v, i, l);
      }
      SettledIs(attrs, props[prop := v], prop);
    }
    if Settled(attrs, props[prop := v], prop) {
      forall name: string
        ensures (name in x <==> name in y) && (name in x ==> x[name] == y[name])
      {
        NameAgreesAfter(m, attrs, props, prop, v, name);
      }
      assert x == y;
    }
  }

  predicate AreNamedAlike(attrs: seq<Attr>, i: nat, l: nat) {
    i < |attrs| && l < |attrs| && attrs[i].Dynamic? && attrs[l].Dynamic? && attrs[i].name == attrs[l].name
  }

  lemma SettledIs(attrs: seq<Attr>, props: Props, prop: string)
    requires forall i: nat, l: nat ::
      LastChosen(attrs, i, prop) && LastChosen(attrs, l, "") && AreNamedAlike(attrs, i, l) ==>
        Eval(attrs[i].parts, props) == Eval(attrs[l].parts, props)
    ensures Settled(attrs, props, prop)
  {
    hide Eval; hide Chosen;
  }

  // ---- trees ----

  lemma {:induction false} AttiredSameIff(e: Elem, dress: Dress, props: Props, prop: string, v: Value, f: Fill, g: Fill)
    requires prop != "" && Each(e, Able("", props)) && Each(e, Alone(prop)) && Each(e, Same(f, g)) && ElemOk(e)
    ensures Attired(e, After(After(dress, "", props), prop, map[prop := v]), f)
         == Attired(e, After(dress, "", props[prop := v]), g)
       <==> AllSettled(e, props[prop := v], prop)
    decreases e
  {
    hide AttiredForest; hide RunAttrs; hide Settled; hide NodesSettled; hide AttrsEach; hide NodesEach; hide Able;
    hide Alone; hide Same;
    hide NodesOk;
    AttrsRepaintIff(dress(e.attrs), e.attrs, props, prop, v);
    if e.close.Void? {
      NothingSettled(props[prop := v], prop);
    } else {
      AttiredForestSameIff(e.nodes, dress, props, prop, v, f, g);
    }
  }

  lemma NothingSettled(props: Props, prop: string)
    ensures NodesSettled(Nil, props, prop)
  {
  }

  lemma {:induction false} AttiredForestSameIff(ns: Nodes, dress: Dress, props: Props, prop: string, v: Value,
                                                f: Fill, g: Fill)
    requires prop != "" && NodesEach(ns, Able("", props)) && NodesEach(ns, Alone(prop)) && NodesEach(ns, Same(f, g))
      && NodesOk(ns)
    ensures AttiredForest(ns, After(After(dress, "", props), prop, map[prop := v]), f)
         == AttiredForest(ns, After(dress, "", props[prop := v]), g)
       <==> NodesSettled(ns, props[prop := v], prop)
    decreases ns
  {
    hide After; hide Attired; hide AllSettled; hide Each; hide ElemOk; hide Able; hide Alone; hide Decode;
    if ns.Cons? {
      AttiredForestSameIff(ns.tail, dress, props, prop, v, f, g);
      match ns.head {
        case Text(run) =>
        case Dyn(parts) => assert Same(f, g)(parts, false);
        case Child(c) => AttiredSameIff(c, dress, props, prop, v, f, g);
      }
    }
  }

  /** No two dynamic attributes of one element share a name. */
  predicate DynamicApart(attrs: seq<Attr>) {
    forall i, j :: 0 <= i < j < |attrs| && attrs[i].Dynamic? && attrs[j].Dynamic? ==> attrs[i].name != attrs[j].name
  }

  predicate Apart(e: Elem) {
    DynamicApart(e.attrs) && NodesApart(e.nodes)
  }

  predicate NodesApart(ns: Nodes) {
    ns.Cons? ==> (ns.head.Child? ==> Apart(ns.head.elem)) && NodesApart(ns.tail)
  }

  /** Then a repaint leaves every attribute right, whatever static attributes share their names. */
  lemma {:induction false} ApartIsSettled(e: Elem, props: Props, prop: string)
    requires Apart(e)
    ensures AllSettled(e, props, prop)
    decreases e
  {
    hide Chosen; hide Eval;
    NodesApartSettled(e.nodes, props, prop);
  }

  lemma {:induction false} NodesApartSettled(ns: Nodes, props: Props, prop: string)
    requires NodesApart(ns)
    ensures NodesSettled(ns, props, prop)
    decreases ns
  {
    hide DynamicApart; hide Settled;
    if ns.Cons? {
      if ns.head.Child? {
        ApartIsSettled(ns.head.elem, props, prop);
      }
      NodesApartSettled(ns.tail, props, prop);
    }
  }

  /** The assignments run on a tree however its attributes came about. */
  lemma StepsAttire(e: Elem, dress: Dress, base: Fill, only: string, env: Props)
    requires ElemOk(e) && Each(e, Unraw()) && Each(e, Able(only, env))
    ensures RunSteps(Attired(e, dress, base), PaintSteps(ElemOps(e, [], 0), only), env)
         == Some(Attired(e, After(dress, only, env), Over(base, only, env)))
  {
    hide Attired; hide After; hide ElemOps; hide Each; hide ElemOk; hide RunSteps; hide PaintSteps; hide RunOps;
    SitesAreOps(e, [], 0, Unraw());
    PassRawFree(ElemOps(e, [], 0));
    StepsAreOps(Attired(e, dress, base), ElemOps(e, [], 0), only, env);
    ElemPaints(e, [], 0, dress, base, only, env);
  }

  // ---- the main result ----

  /**
   * Painting with the old props and repainting one of them gives what painting with
   * the new props gives, exactly when no site mixes that prop with another (the
   * repaint has only its own prop in scope) and each name the repaint assigns ends
   * with the value the last attribute of that name has.
   */
  lemma RepaintIff(e: Elem, props: Props, prop: string, v: Value)
    requires ElemOk(e) && Each(e, Unraw()) && Each(e, Able("", props)) && prop != ""
    ensures var ops, template := ElemOps(e, [], 0), Tree(e, Blank());
      var before := RunSteps(template, PaintSteps(ops, ""), props);
      var after := RunSteps(template, PaintSteps(ops, ""), props[prop := v]);
      before.Some? && after.Some?
      && (RunSteps(before.value, PaintSteps(ops, prop), map[prop := v]) == after
          <==> Each(e, Alone(prop)) && AllSettled(e, props[prop := v], prop))
  {
    hide Tree; hide Attired; hide After; hide ElemOps; hide Each; hide ElemOk; hide RunSteps; hide PaintSteps;
    hide Over;
    hide Able; hide Alone; hide RunOps; hide AllSettled;
    var ops, env := ElemOps(e, [], 0), map[prop := v];
    var worn := Worn(Blank());
    var old_, new_ := Over(Blank(), "", props), Over(Blank(), "", props[prop := v]);
    TreeIsAttired(e, Blank());
    StepsAttire(e, worn, Blank(), "", props);
    StillAble(e, props, prop, v);
    StepsAttire(e, worn, Blank(), "", props[prop := v]);
    AloneEachAble(e, prop, v);
    var before := Attired(e, After(worn, "", props), old_);
    if Each(e, Alone(prop)) {
      StepsAttire(e, After(worn, "", props), old_, prop, env);
      RepaintedSame(e, props, prop, v);
      AttiredSameIff(e, worn, props, prop, v, Over(old_, prop, env), new_);
    } else {
      SitesAreOps(e, [], 0, Unraw());
      PassRawFree(ops);
      StepsAreOps(before, ops, prop, env);
      if RunOps(before, ops, prop, 0, env).Some? {
        RanMeansAble(before, ops, prop, env);
        SitesAreOps(e, [], 0, Able(prop, env));
        assert false;
      }
    }
  }

  lemma StillAble(e: Elem, props: Props, prop: string, v: Value)
    requires Each(e, Able("", props))
    ensures Each(e, Able("", props[prop := v]))
  {
    forall parts, b | Able("", props)(parts, b)
      ensures Able("", props[prop := v])(parts, b)
    {
      EvalIn(parts, props);
      EvalIn(parts, props[prop := v]);
    }
    EachWeaken(e, Able("", props), Able("", props[prop := v]));
  }

  lemma AloneEachAble(e: Elem, prop: string, v: Value)
    requires prop != ""
    ensures Each(e, Alone(prop)) <==> Each(e, Able(prop, map[prop := v]))
  {
    hide Alone; hide Able; hide Each;
    forall parts, b
      ensures Alone(prop)(parts, b) <==> Able(prop, map[prop := v])(parts, b)
    {
      AloneIsAble(parts, b, prop, v);
    }
    if Each(e, Alone(prop)) {
      EachWeaken(e, Alone(prop), Able(prop, map[prop := v]));
    }
    if Each(e, Able(prop, map[prop := v])) {
      EachWeaken(e, Able(prop, map[prop := v]), Alone(prop));
    }
  }

  lemma RepaintedSame(e: Elem, props: Props, prop: string, v: Value)
    requires prop != "" && Each(e, Alone(prop)) && Each(e, Able("", props))
    ensures Each(e, Same(Over(Over(Blank(), "", props), prop, map[prop := v]), Over(Blank(), "", props[prop := v])))
  {
    hide Alone; hide Able; hide Each; hide Over; hide Blank;
    var f, g := Over(Over(Blank(), "", props), prop, map[prop := v]), Over(Blank(), "", props[prop := v]);
    forall parts, b | Both(Alone(prop), Able("", props))(parts, b)
      ensures Same(f, g)(parts, b)
    {
      SiteRepaints(parts, b, props, prop, v);
    }
    EachBoth(e, Alone(prop), Able("", props));
    EachWeaken(e, Both(Alone(prop), Able("", props)), Same(f, g));
  }

  function Both(p: Test, q: Test): Test {
    (parts, inAttr) => p(parts, inAttr) && q(parts, inAttr)
  }

  lemma {:induction false} EachBoth(e: Elem, p: Test, q: Test)
    requires Each(e, p) && Each(e, q)
    ensures Each(e, Both(p, q))
    decreases e
  {
    NodesBoth(e.nodes, p, q);
  }

  lemma {:induction false} NodesBoth(ns: Nodes, p: Test, q: Test)
    requires NodesEach(ns, p) && NodesEach(ns, q)
    ensures NodesEach(ns, Both(p, q))
    decreases ns
  {
    if ns.Cons? {
      if ns.head.Child? {
        EachBoth(ns.head.elem, p, q);
      }
      NodesBoth(ns.tail, p, q);
    }
  }

  // ---- the element a key owns ----

  /** A repaint addressed to a key: nothing happens when nothing was painted under it. */
  function RepaintKey(reg: map<int, Dom>, key: int, steps: seq<Assign>, env: Props): Option<map<int, Dom>> {
    if key !in reg then Some(reg)
    else
      var d := RunSteps(reg[key], steps, env);
      if d.None? then None else Some(reg[key := d.value])
  }

  /** Repainting a prop of one row brings that row, and only that row, up to date. */
  lemma RepaintRow(e: Elem, reg: map<int, Dom>, key: int, props: Props, prop: string, v: Value)
    requires ElemOk(e) && Each(e, Unraw()) && Each(e, Able("", props)) && prop != ""
    requires Each(e, Alone(prop)) && AllSettled(e, props[prop := v], prop)
    requires key in reg ==> Some(reg[key]) == RunSteps(Tree(e, Blank()), PaintSteps(ElemOps(e, [], 0), ""), props)
    ensures var r := RepaintKey(reg, key, PaintSteps(ElemOps(e, [], 0), prop), map[prop := v]);
      r.Some? && r.value.Keys == reg.Keys
      && (forall k :: k in reg && k != key ==> r.value[k] == reg[k])
      && (key in reg ==>
        Some(r.value[key]) == RunSteps(Tree(e, Blank()), PaintSteps(ElemOps(e, [], 0), ""), props[prop := v]))
  {
    hide Tree; hide ElemOps; hide Each; hide ElemOk; hide RunSteps; hide PaintSteps; hide AllSettled;
    RepaintIff(e, props, prop, v);
  }
}
