/** What the value of a prop is written and assigned as, and that runs put their parts one after the other. */
module Values {
  import opened Wrappers
  import opened Markup
  import opened Lowering
  import opened Painting

  /** A bool is shown by its word, a text and a number as they are. */
  lemma ShownAs(v: Value)
    ensures v == Bool(true) ==> Show(v) == "true"
    ensures v == Bool(false) ==> Show(v) == "false"
    ensures v.Str? ==> Show(v) == v.s
    ensures v.Num? ==> Show(v) == v.digits
  {
  }

  /** The characters that mean something in markup, and what each is written as. */
  lemma EscapesByName(inAttr: bool)
    ensures Escape("&", inAttr) == "&amp;" && Escape("<", inAttr) == "&lt;" && Escape(">", inAttr) == "&gt;"
    ensures Escape("\"", inAttr) == (if inAttr then "&quot;" else "\"")
    ensures Escape("'", inAttr) == (if inAttr then "&#39;" else "'")
    ensures forall c :: c !in "&<>\"'" ==> Escape([c], inAttr) == [c]
  {
    forall c: char
      ensures Escape([c], inAttr) == EscapeChar(c, inAttr)
    {
      assert [c][1..] == "";
      assert EscapeChar(c, inAttr) + "" == EscapeChar(c, inAttr);
    }
  }

  lemma {:induction false} EscapeAppend(a: string, b: string, inAttr: bool)
    ensures Escape(a + b, inAttr) == Escape(a, inAttr) + Escape(b, inAttr)
    decreases |a|
  {
    if a == "" {
      assert a + b == b;
    } else {
      assert (a + b)[1..] == a[1..] + b;
      EscapeAppend(a[1..], b, inAttr);
    }
  }

  /**
   * The native lowering of one placeholder, by its type: raw markup as it is, a text
   * escaped for where it stands, a bool by its word and a number by its digits.
   */
  lemma WrittenAs(name: string, props: Props, inAttr: bool)
    requires name in props
    ensures props[name].Str? ==>
      && RunWrites(PartWrites([Ident(name, "string", true)], inAttr), props) == Some(props[name].s)
      && RunWrites(PartWrites([Ident(name, "string", false)], inAttr), props) == Some(Escape(props[name].s, inAttr))
    ensures props[name] == Bool(true) ==>
      RunWrites(PartWrites([Ident(name, "bool", false)], inAttr), props) == Some("true")
    ensures props[name] == Bool(false) ==>
      RunWrites(PartWrites([Ident(name, "bool", false)], inAttr), props) == Some("false")
    ensures props[name].Num? ==>
      && RunWrites(PartWrites([Ident(name, "i64", false)], inAttr), props) == Some(props[name].digits)
      && RunWrites(PartWrites([Ident(name, "f64", false)], inAttr), props) == Some(props[name].digits)
  {
    hide Escape; hide PartWrites; hide RunWrites; hide DynWrite;
    OneWrite(Ident(name, "string", true), inAttr, props);
    OneWrite(Ident(name, "string", false), inAttr, props);
    OneWrite(Ident(name, "bool", false), inAttr, props);
    OneWrite(Ident(name, "i64", false), inAttr, props);
    OneWrite(Ident(name, "f64", false), inAttr, props);
    WritesByType(name, inAttr);
  }

  lemma OneWrite(p: Part, inAttr: bool, props: Props)
    requires p.Ident?
    ensures RunWrites(PartWrites([p], inAttr), props) == RunWrite(DynWrite(p, inAttr), props)
  {
    var w := DynWrite(p, inAttr);
    assert [p][1..] == [] && [w] + [] == [w] && [w][1..] == [];
    if RunWrite(w, props).Some? {
      assert RunWrite(w, props).value + "" == RunWrite(w, props).value;
    }
  }

  lemma WritesByType(name: string, inAttr: bool)
    ensures DynWrite(Ident(name, "string", true), inAttr) == WriteVerbatim(name)
    ensures DynWrite(Ident(name, "string", false), inAttr) == WriteEscaped(name, inAttr)
    ensures DynWrite(Ident(name, "bool", false), inAttr) == WriteBool(name)
    ensures DynWrite(Ident(name, "i64", false), inAttr) == WriteNum(name)
    ensures DynWrite(Ident(name, "f64", false), inAttr) == WriteNum(name)
  {
  }

  /** Literals are written as they are, and a run of parts is written part by part. */
  lemma {:induction false} WritesAppend(a: seq<Part>, b: seq<Part>, inAttr: bool)
    ensures PartWrites(a + b, inAttr) == PartWrites(a, inAttr) + PartWrites(b, inAttr)
    decreases |a|
  {
    hide DynWrite;
    if a == [] {
      assert a + b == b;
    } else {
      assert (a + b)[1..] == a[1..] + b;
      WritesAppend(a[1..], b, inAttr);
    }
  }

  lemma LiteralWritten(text: string, inAttr: bool, props: Props)
    ensures RunWrites(PartWrites([Lit(text)], inAttr), props) == Some(text)
  {
    var w := LitWrite(text);
    assert [Lit(text)][1..] == [];
    assert w + [] == w;
    if text != "" {
      assert w[1..] == [];
      assert text + "" == text;
    }
  }

  /** The browser lowering: a literal is its text, a placeholder what its prop is shown as. */
  lemma AssignedAs(text: string, name: string, ptype: string, raw: bool, env: Props)
    ensures Eval([Lit(text)], env) == Some(text)
    ensures Eval([Ident(name, ptype, raw)], env) == if name in env then Some(Show(env[name])) else None
  {
    hide Show;
    OneValue(Lit(text), env);
    OneValue(Ident(name, ptype, raw), env);
  }

  lemma OneValue(p: Part, env: Props)
    ensures Eval([p], env)
         == if p.Lit? then Some(p.text) else if p.name in env then Some(Show(env[p.name])) else None
  {
    hide Show;
    assert [p][1..] == [];
    if p.Lit? {
      assert p.text + "" == p.text;
    } else if p.name in env {
      assert Show(env[p.name]) + "" == Show(env[p.name]);
    }
  }

  lemma {:induction false} EvalAppend(a: seq<Part>, b: seq<Part>, env: Props)
    ensures var x, y := Eval(a, env), Eval(b, env);
      Eval(a + b, env) == if x.None? || y.None? then None else Some(x.value + y.value)
    decreases |a|
  {
    hide Show;
    var y := Eval(b, env);
    if a == [] {
      assert a + b == b;
      if y.Some? {
        assert "" + y.value == y.value;
      }
    } else {
      assert (a + b)[1..] == a[1..] + b;
      EvalAppend(a[1..], b, env);
      OneValue(a[0], env);
      var x := Eval(a[1..], env);
      if Eval([a[0]], env).Some? && x.Some? && y.Some? {
        assert Eval([a[0]], env).value + (x.value + y.value) == Eval([a[0]], env).value + x.value + y.value;
      }
    }
  }

  /** Text that holds raw markup is assigned as markup, all other text as text, and an attribute as an attribute. */
  lemma AssignsBy(path: seq<nat>, name: string, a: seq<Part>, p: Part, b: seq<Part>, pos: nat)
    requires p.Ident? && p.raw
    ensures StepOf(Op(ToText, path, a + [p] + b, pos)) == SetInnerHtml(path, a + [p] + b)
    ensures StepOf(Op(ToAttr(name), path, a, pos)) == SetAttribute(path, name, a)
    ensures (forall k :: 0 <= k < |a| ==> a[k].Lit? || !a[k].raw) ==>
      StepOf(Op(ToText, path, a, pos)) == SetTextContent(path, a)
  {
    assert (a + [p] + b)[|a|] == p;
  }
}
