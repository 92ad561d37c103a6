/**
 * The top level of component markup: elements of its own and calls of other
 * components, read one after the other.
 */
module TopLevel {
  import opened Wrappers
  import opened Markup
  import opened Scanner

  /** An argument of a call: a quoted literal, or a prop of the caller handed on. */
  datatype Arg = Literal(name: string, text: string) | Forward(name: string, part: Part)

  datatype Piece = Own(elem: Elem) | Call(name: string, args: seq<Arg>)

  // ---- reading ----

  /** The value of an argument at v. */
  function ReadArgValue(m: string, name: string, v: nat): (r: Option<(Arg, nat)>)
    requires v <= |m|
    ensures r.Some? ==> v < r.value.1 <= |m|
  {
    if v < |m| && m[v] == '"' then
      var q := Until(m, '"', v + 1);
      if q >= |m| then None else Some((Literal(name, m[v + 1..q]), q + 1))
    else if At(m, "{{", v) then
      var ph := ReadPlaceholder(m, v);
      if ph.None? then None else Some((Forward(name, ph.value.0), ph.value.1))
    else None
  }

  function ReadArg(m: string, i: nat): (r: Option<(Arg, nat)>)
    requires i < |m|
    ensures r.Some? ==> i < r.value.1 <= |m|
  {
    var n := NameEnd(m, i);
    if n == i then None
    else
      var j := SpaceEnd(m, n);
      if j >= |m| || m[j] != '=' then None else ReadArgValue(m, m[i..n], SpaceEnd(m, j + 1))
  }

  /** The arguments from i on, up to the end of the tag. */
  function ReadArgs(m: string, i: nat): (r: Option<(seq<Arg>, nat)>)
    requires i <= |m|
    ensures r.Some? ==> i <= r.value.1 < |m| && (m[r.value.1] == '>' || m[r.value.1] == '/')
    decreases |m| - i
  {
    var j := SpaceEnd(m, i);
    if j >= |m| then None
    else if m[j] == '>' || m[j] == '/' then Some(([], j))
    else
      var a := ReadArg(m, j);
      if a.None? then None
      else
        var rest := ReadArgs(m, a.value.1);
        if rest.None? then None else Some(([a.value.0] + rest.value.0, rest.value.1))
  }

  /** A component tag at i: self-closing, or with nothing but white space before its closing tag. */
  function ReadCall(m: string, i: nat): (r: Option<(Piece, nat)>)
    requires i < |m|
    ensures r.Some? ==> i < r.value.1 <= |m| && r.value.0.Call?
  {
    var n := NameEnd(m, i + 1);
    var name := m[i + 1..n];
    var args := ReadArgs(m, n);
    if args.None? then None
    else
      var j := args.value.1;
      if m[j] == '/' then
        if j + 1 >= |m| || m[j + 1] != '>' then None else Some((Call(name, args.value.0), j + 2))
      else
        var k := SpaceEnd(m, j + 1);
        if At(m, CloseHtml(name), k) then Some((Call(name, args.value.0), k + |CloseHtml(name)|)) else None
  }

  predicate CallsAt(m: string, i: nat) {
    i + 1 < |m| && IsUpper(m[i + 1])
  }

  function ReadPiece(m: string, i: nat): (r: Option<(Piece, nat)>)
    requires i < |m|
    ensures r.Some? ==> i < r.value.1 <= |m|
  {
    if m[i] != '<' then None
    else if CallsAt(m, i) then ReadCall(m, i)
    else
      var e := ReadElem(m, i);
      if e.None? then None else Some((Own(e.value.0), e.value.1))
  }

  /** The pieces from i on, through the end of the markup. */
  function ReadPieces(m: string, i: nat): Option<seq<Piece>>
    requires i <= |m|
    decreases |m| - i
  {
    var j := SpaceEnd(m, i);
    if j >= |m| then Some([])
    else
      var p := ReadPiece(m, j);
      if p.None? then None
      else
        var rest := ReadPieces(m, p.value.1);
        if rest.None? then None else Some([p.value.0] + rest.value)
  }

  /** Component markup: at least one piece. */
  function ReadComponent(m: string): Option<seq<Piece>> {
    var r := ReadPieces(m, 0);
    if r == Some([]) then None else r
  }

  // ---- what is kept of it ----

  /** A piece as it is kept for the two lowerings. */
  datatype Kept = Segment(html: string, ops: seq<Op>) | Calling(name: string, args: seq<Arg>)

  function KeptOf(p: Piece): Kept {
    match p
    case Own(e) => Segment(ElemHtml(e), ElemOps(e, [], 0))
    case Call(name, args) => Calling(name, args)
  }

  function AllKept(ps: seq<Piece>): (ns: seq<Kept>)
    ensures |ns| == |ps|
  {
    seq(|ps|, i requires 0 <= i < |ps| => KeptOf(ps[i]))
  }

  function RegisterArg(props: seq<Prop>, a: Arg): seq<Prop> {
    if a.Forward? then Register(props, a.part) else props
  }

  function RegisterArgs(props: seq<Prop>, args: seq<Arg>): seq<Prop>
    decreases |args|
  {
    if args == [] then props else RegisterArgs(RegisterArg(props, args[0]), args[1..])
  }

  function RegisterPiece(props: seq<Prop>, p: Piece): seq<Prop> {
    match p
    case Own(e) => RegisterElem(props, e)
    case Call(_, args) => RegisterArgs(props, args)
  }

  function RegisterPieces(props: seq<Prop>, ps: seq<Piece>): seq<Prop>
    decreases |ps|
  {
    if ps == [] then props else RegisterPieces(RegisterPiece(props, ps[0]), ps[1..])
  }

  // ---- the scanner's own steps ----

  method ScanArgValue(s: Scanner, name: string) returns (ok: bool, a: Arg)
    requires s.i <= |s.m|
    modifies s`i, s`props
    ensures ok <==> ReadArgValue(s.m, name, old(s.i)).Some?
    ensures ok ==> (a, s.i) == ReadArgValue(s.m, name, old(s.i)).value && s.props == RegisterArg(old(s.props), a)
  {
    hide ReadPlaceholder; hide Register;
    a := Literal(name, "");
    PairAt(s.m, s.i);
    if s.i < |s.m| && s.m[s.i] == '"' {
      var v0 := s.i;
      s.i := Until(s.m, '"', v0 + 1);
      if s.i >= |s.m| { return false, a; }
      s.i := s.i + 1;
      return true, Literal(name, s.m[v0 + 1..s.i - 1]);
    }
    if s.i + 1 < |s.m| && s.m[s.i] == '{' && s.m[s.i + 1] == '{' {
      var ok1, p, end := s.Placeholder(s.m, s.i);
      if !ok1 { return false, a; }
      s.i := end;
      return true, Forward(name, p);
    }
    return false, a;
  }

  method ScanArg(s: Scanner) returns (ok: bool, a: Arg)
    requires s.i < |s.m|
    modifies s`i, s`props
    ensures ok <==> ReadArg(s.m, old(s.i)).Some?
    ensures ok ==> (a, s.i) == ReadArg(s.m, old(s.i)).value && s.props == RegisterArg(old(s.props), a)
  {
    hide ReadArgValue; hide RegisterArg;
    a := Literal("", "");
    var name := s.TagName();
    if name == "" { return false, a; }
    s.SkipSpace();
    if s.i >= |s.m| || s.m[s.i] != '=' { return false, a; }
    s.i := s.i + 1;
    s.SkipSpace();
    ok, a := ScanArgValue(s, name);
  }

  lemma ArgsRound(m: string, i: nat)
    requires i <= |m|
    ensures var j := SpaceEnd(m, i);
      ReadArgs(m, i) ==
        if j >= |m| then None
        else if m[j] == '>' || m[j] == '/' then Some(([], j))
        else if ReadArg(m, j).None? then None
        else if ReadArgs(m, ReadArg(m, j).value.1).None? then None
        else Some(([ReadArg(m, j).value.0] + ReadArgs(m, ReadArg(m, j).value.1).value.0,
                   ReadArgs(m, ReadArg(m, j).value.1).value.1))
  {
    hide ReadArg;
  }

  lemma {:induction false} RegisterArgPush(props: seq<Prop>, args: seq<Arg>, a: Arg)
    ensures RegisterArgs(props, args + [a]) == RegisterArg(RegisterArgs(props, args), a)
    decreases |args|
  {
    if args == [] {
      assert ([] + [a])[1..] == [];
    } else {
      assert (args + [a])[1..] == args[1..] + [a];
      RegisterArgPush(RegisterArg(props, args[0]), args[1..], a);
    }
  }

  /** childAttrs. */
  method ScanArgs(s: Scanner) returns (ok: bool, args: seq<Arg>)
    requires s.i <= |s.m|
    modifies s`i, s`props
    ensures ok <==> ReadArgs(s.m, old(s.i)).Some?
    ensures ok ==> (args, s.i) == ReadArgs(s.m, old(s.i)).value && s.props == RegisterArgs(old(s.props), args)
  {
    hide ReadArgs; hide ReadArg; hide RegisterArg; hide RegisterArgs;
    ghost var whole := ReadArgs(s.m, s.i);
    args := [];
    NoArgs(s.props);
    assert whole.Some? ==> [] + whole.value.0 == whole.value.0;
    while true
      invariant s.i <= |s.m|
      invariant whole.Some? <==> ReadArgs(s.m, s.i).Some?
      invariant whole.Some? ==> whole.value == (args + ReadArgs(s.m, s.i).value.0, ReadArgs(s.m, s.i).value.1)
      invariant s.props == RegisterArgs(old(s.props), args)
      decreases |s.m| - s.i
    {
      ArgsRound(s.m, s.i);
      s.SkipSpace();
      if s.i >= |s.m| { return false, args; }
      if s.m[s.i] == '>' || s.m[s.i] == '/' {
        assert args + [] == args;
        return true, args;
      }
      var ok1, a := ScanArg(s);
      if !ok1 { return false, args; }
      RegisterArgPush(old(s.props), args, a);
      ghost var rest := if whole.Some? then ReadArgs(s.m, s.i).value.0 else [];
      assert args + ([a] + rest) == args + [a] + rest;
      args := args + [a];
    }
  }

  lemma NoArgs(props: seq<Prop>)
    ensures RegisterArgs(props, []) == props
  {
  }

  method ScanCall(s: Scanner) returns (ok: bool, p: Piece)
    requires s.i < |s.m|
    modifies s`i, s`props
    ensures ok <==> ReadCall(s.m, old(s.i)).Some?
    ensures ok ==> (p, s.i) == ReadCall(s.m, old(s.i)).value && s.props == RegisterPiece(old(s.props), p)
    ensures ok ==> p.Call?
  {
    hide ReadArgs; hide RegisterArgs; hide CloseHtml; hide At;
    p := Call("", []);
    s.i := s.i + 1;
    var name := s.TagName();
    var ok1, args := ScanArgs(s);
    if !ok1 { return false, p; }
    p := Call(name, args);
    if s.m[s.i] == '/' {
      s.i := s.i + 1;
      if s.i >= |s.m| || s.m[s.i] != '>' { return false, p; }
      s.i := s.i + 1;
      return true, p;
    }
    s.i := s.i + 1;
    s.SkipSpace();
    var close := CloseHtml(name);
    if !At(s.m, close, s.i) { return false, p; }
    s.i := s.i + |close|;
    return true, p;
  }

  lemma PiecesRound(m: string, i: nat)
    requires i <= |m|
    ensures var j := SpaceEnd(m, i);
      ReadPieces(m, i) ==
        if j >= |m| then Some([])
        else if ReadPiece(m, j).None? then None
        else if ReadPieces(m, ReadPiece(m, j).value.1).None? then None
        else Some([ReadPiece(m, j).value.0] + ReadPieces(m, ReadPiece(m, j).value.1).value)
  {
    hide ReadPiece;
  }

  lemma {:induction false} RegisterPiecePush(props: seq<Prop>, ps: seq<Piece>, p: Piece)
    ensures RegisterPieces(props, ps + [p]) == RegisterPiece(RegisterPieces(props, ps), p)
    decreases |ps|
  {
    hide RegisterPiece;
    if ps == [] {
      assert ([] + [p])[1..] == [];
    } else {
      assert (ps + [p])[1..] == ps[1..] + [p];
      RegisterPiecePush(RegisterPiece(props, ps[0]), ps[1..], p);
    }
  }

  /** One piece: an element is scanned into a segment of its own. */
  method ScanPiece(s: Scanner) returns (ok: bool, node: Kept, ghost p: Piece)
    requires s.i < |s.m|
    modifies s
    ensures ok <==> ReadPiece(s.m, old(s.i)).Some?
    ensures ok ==> (p, s.i) == ReadPiece(s.m, old(s.i)).value && node == KeptOf(p)
    ensures ok ==> s.props == RegisterPiece(old(s.props), p)
  {
    hide ReadCall; hide ReadElem; hide ElemHtml; hide ElemOps; hide RegisterArgs; hide RegisterElem;
    node, p := Calling("", []), Call("", []);
    if s.m[s.i] != '<' { return false, node, p; }
    if s.i + 1 < |s.m| && IsUpper(s.m[s.i + 1]) {
      var ok1, call := ScanCall(s);
      if !ok1 { return false, node, p; }
      return true, Calling(call.name, call.args), call;
    }
    s.html, s.ops, s.path := "", [], [];
    var ok2;
    ghost var e;
    ok2, e := s.Element();
    if !ok2 { return false, node, p; }
    assert s.html == "" + ElemHtml(e) == ElemHtml(e);
    assert s.ops == [] + ElemOps(e, [], 0) == ElemOps(e, [], 0);
    return true, Segment(s.html, s.ops), Own(e);
  }

  /** The top-level loop: white space between pieces is skipped, other text is refused. */
  method ScanComponent(m: string) returns (ok: bool, nodes: seq<Kept>, props: seq<Prop>)
    ensures ok <==> ReadComponent(m).Some?
    ensures ok ==> nodes == AllKept(ReadComponent(m).value) && props == RegisterPieces([], ReadComponent(m).value)
  {
    hide ReadPieces; hide ReadPiece; hide RegisterPiece; hide RegisterPieces; hide KeptOf;
    var s := new Scanner(m);
    ghost var whole, done := ReadPieces(m, 0), [];
    nodes := [];
    NoPieces();
    while true
      invariant s.m == m && s.i <= |m| && fresh(s)
      invariant whole.Some? <==> ReadPieces(m, s.i).Some?
      invariant whole.Some? ==> whole.value == done + ReadPieces(m, s.i).value
      invariant nodes == AllKept(done) && s.props == RegisterPieces([], done)
      decreases |m| - s.i
    {
      PiecesRound(m, s.i);
      s.SkipSpace();
      if s.i >= |m| { break; }
      var ok1, node;
      ghost var p;
      ok1, node, p := ScanPiece(s);
      if !ok1 { return false, nodes, s.props; }
      RegisterPiecePush([], done, p);
      ghost var rest := if whole.Some? then ReadPieces(m, s.i).value else [];
      assert done + ([p] + rest) == done + [p] + rest;
      done := done + [p];
      nodes := nodes + [node];
    }
    assert done + [] == done;
    return |nodes| > 0, nodes, s.props;
  }

  lemma NoPieces()
    ensures RegisterPieces([], []) == [] && AllKept([]) == []
  {
  }
}
