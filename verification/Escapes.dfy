/**
 * Reading escapes back: when a browser decodes a rendered run to the text the
 * run stands for.
 */
module Escapes {
  import opened Wrappers
  import opened Markup
  import opened Lowering

  // ---- decoding ----

  predicate StartsWith(s: string, pat: string) {
    |pat| <= |s| && s[..|pat|] == pat
  }

  const ENTITIES: seq<(string, char)> := [("amp;", '&'), ("lt;", '<'), ("gt;", '>'), ("quot;", '"'), ("#39;", '\'')]

  /** The escape that follows an ampersand at the head of s, if one of the five does. */
  function EntityAfter(s: string): Option<(string, char)> {
    if StartsWith(s, "amp;") then Some(("amp;", '&'))
    else if StartsWith(s, "lt;") then Some(("lt;", '<'))
    else if StartsWith(s, "gt;") then Some(("gt;", '>'))
    else if StartsWith(s, "quot;") then Some(("quot;", '"'))
    else if StartsWith(s, "#39;") then Some(("#39;", '\''))
    else None
  }

  /** The five escapes decode; any other ampersand stands for itself. */
  function Decode(s: string): string {
    if s == "" then ""
    else
      var entity := EntityAfter(s[1..]);
      if s[0] == '&' && entity.Some? then [entity.value.1] + Decode(s[1 + |entity.value.0|..])
      else [s[0]] + Decode(s[1..])
  }

  // ---- a rendered run, character by character ----

  /** A character written as authored, or written through the escape. */
  datatype Unit = Fixed(c: char) | Guarded(c: char)

  function UnitText(u: Unit, inAttr: bool): string {
    if u.Fixed? then [u.c] else EscapeChar(u.c, inAttr)
  }

  function UnitsText(us: seq<Unit>, inAttr: bool): string {
    if us == [] then "" else UnitText(us[0], inAttr) + UnitsText(us[1..], inAttr)
  }

  function UnitsPlain(us: seq<Unit>): string {
    if us == [] then "" else [us[0].c] + UnitsPlain(us[1..])
  }

  /** The written text has one of the five escapes standing at unit i. */
  predicate EntityAt(us: seq<Unit>, i: nat, inAttr: bool)
    requires i < |us|
  {
    EntityAfter(UnitsText(us[i + 1..], inAttr)).Some?
  }

  /** No authored ampersand begins what reads as an escape. */
  predicate Clean(us: seq<Unit>, inAttr: bool) {
    forall i :: 0 <= i < |us| && us[i] == Fixed('&') ==> !EntityAt(us, i, inAttr)
  }

  /** A written prefix without an ampersand is made of whole one-character units. */
  lemma {:induction false} PrefixUnits(us: seq<Unit>, pat: string, inAttr: bool)
    requires StartsWith(UnitsText(us, inAttr), pat) && '&' !in pat
    ensures |pat| <= |us| && UnitsText(us[|pat|..], inAttr) == UnitsText(us, inAttr)[|pat|..]
    decreases |pat|
  {
    if pat == "" {
      assert us[0..] == us;
    } else {
      var first, rest := UnitText(us[0], inAttr), UnitsText(us[1..], inAttr);
      var s := UnitsText(us, inAttr);
      assert s == first + rest && s[0] == pat[0] && s[0] == first[0];
      assert pat[0] in pat;
      assert |first| == 1;
      assert s[1..] == rest;
      assert pat[1..] == s[1..][..|pat| - 1];
      assert '&' !in pat[1..];
      PrefixUnits(us[1..], pat[1..], inAttr);
      assert us[1..][|pat| - 1..] == us[|pat|..];
      assert s[1..][|pat| - 1..] == s[|pat|..];
    }
  }

  lemma EntityShape(s: string)
    requires EntityAfter(s).Some?
    ensures var name := EntityAfter(s).value.0; StartsWith(s, name) && '&' !in name && 2 <= |name|
  {
  }

  lemma NotStarting(s: string, pat: string)
    requires s != "" && pat != "" && s[0] != pat[0]
    ensures !StartsWith(s, pat)
  {
    assert |pat| <= |s| ==> s[..|pat|][0] == s[0];
  }

  lemma EntityReads(name: string, c: char, rest: string)
    requires (name, c) in ENTITIES
    ensures EntityAfter(name + rest) == Some((name, c))
  {
    var s := name + rest;
    hide StartsWith;
    assert StartsWith(s, name) by { Starts(name, rest); }
    if c != '&' { NotStarting(s, "amp;"); }
    if c != '<' { NotStarting(s, "lt;"); }
    if c != '>' { NotStarting(s, "gt;"); }
    if c != '"' { NotStarting(s, "quot;"); }
  }

  lemma Starts(pat: string, rest: string)
    ensures StartsWith(pat + rest, pat)
  {
  }

  lemma EntityDecodes(name: string, c: char, rest: string)
    requires (name, c) in ENTITIES
    ensures Decode("&" + name + rest) == [c] + Decode(rest)
  {
    hide StartsWith; hide EntityAfter;
    var s := "&" + name + rest;
    assert s[1..] == name + rest;
    EntityReads(name, c, rest);
    assert s[1 + |name|..] == rest;
  }

  lemma GuardedDecodes(c: char, inAttr: bool, rest: string)
    ensures Decode(EscapeChar(c, inAttr) + rest) == [c] + Decode(rest)
  {
    hide Decode;
    var s := EscapeChar(c, inAttr);
    if s == [c] {
      PlainDecodes(c, rest);
    } else {
      var entity := if c == '&' then ENTITIES[0] else if c == '<' then ENTITIES[1] else if c == '>' then ENTITIES[2]
                    else if c == '"' then ENTITIES[3] else ENTITIES[4];
      assert entity in ENTITIES;
      EntityDecodes(entity.0, c, rest);
      assert s == "&" + entity.0;
    }
  }

  lemma PlainDecodes(c: char, rest: string)
    requires c != '&'
    ensures Decode([c] + rest) == [c] + Decode(rest)
  {
    assert ([c] + rest)[1..] == rest;
  }

  lemma CleanTail(us: seq<Unit>, inAttr: bool)
    requires us != []
    ensures Clean(us, inAttr)
        <==> (us[0] == Fixed('&') ==> !EntityAt(us, 0, inAttr)) && Clean(us[1..], inAttr)
  {
    assert forall i :: 0 <= i < |us[1..]| ==> us[1..][i] == us[i + 1] && us[1..][i + 1..] == us[i + 2..];
    if Clean(us[1..], inAttr) && (us[0] == Fixed('&') ==> !EntityAt(us, 0, inAttr)) {
      forall i | 0 <= i < |us| && us[i] == Fixed('&')
        ensures !EntityAt(us, i, inAttr)
      {
        if i > 0 {
          assert us[1..][i - 1] == us[i] && !EntityAt(us[1..], i - 1, inAttr);
        }
      }
    }
    if Clean(us, inAttr) {
      forall i | 0 <= i < |us[1..]| && us[1..][i] == Fixed('&')
        ensures !EntityAt(us[1..], i, inAttr)
      {
        assert !EntityAt(us, i + 1, inAttr);
      }
    }
  }

  /**
   * The browser reads a rendered run back as what it stands for exactly when no
   * authored ampersand begins an escape; otherwise it reads something shorter.
   */
  lemma {:induction false} DecodeUnits(us: seq<Unit>, inAttr: bool)
    ensures |Decode(UnitsText(us, inAttr))| <= |us| == |UnitsPlain(us)|
    ensures Decode(UnitsText(us, inAttr)) == UnitsPlain(us) <==> Clean(us, inAttr)
    ensures !Clean(us, inAttr) ==> |Decode(UnitsText(us, inAttr))| < |us|
    decreases |us|
  {
    if us != [] {
      var rest := UnitsText(us[1..], inAttr);
      var s := UnitsText(us, inAttr);
      CleanTail(us, inAttr);
      DecodeUnits(us[1..], inAttr);
      if us[0].Guarded? {
        GuardedDecodes(us[0].c, inAttr, rest);
      } else {
        assert s[0] == us[0].c && s[1..] == rest;
        if us[0].c == '&' && EntityAfter(rest).Some? {
          var name := EntityAfter(rest).value.0;
          EntityShape(rest);
          PrefixUnits(us[1..], name, inAttr);
          assert s[1 + |name|..] == rest[|name|..];
          DecodeUnits(us[1..][|name|..], inAttr);
        }
      }
    }
  }

  // ---- the units of a run ----

  function Chars(s: string, guarded: bool): (us: seq<Unit>)
    ensures |us| == |s|
  {
    seq(|s|, i requires 0 <= i < |s| => if guarded then Guarded(s[i]) else Fixed(s[i]))
  }

  function PartUnits(p: Part, props: Props): seq<Unit>
    requires Typed(p, props)
  {
    if p.Lit? then Chars(p.text, false) else Chars(Show(props[p.name]), !p.raw && props[p.name].Str?)
  }

  function RunUnits(parts: seq<Part>, props: Props): seq<Unit>
    requires AllTyped(parts, props)
  {
    if parts == [] then [] else PartUnits(parts[0], props) + RunUnits(parts[1..], props)
  }

  /** The text a run stands for. */
  function Plain(parts: seq<Part>, props: Props): string
    requires AllTyped(parts, props)
  {
    if parts == [] then ""
    else (if parts[0].Lit? then parts[0].text else Show(props[parts[0].name])) + Plain(parts[1..], props)
  }

  lemma {:induction false} UnitsAppend(a: seq<Unit>, b: seq<Unit>, inAttr: bool)
    ensures UnitsText(a + b, inAttr) == UnitsText(a, inAttr) + UnitsText(b, inAttr)
    ensures UnitsPlain(a + b) == UnitsPlain(a) + UnitsPlain(b)
    decreases |a|
  {
    hide UnitText;
    if a == [] {
      assert a + b == b;
    } else {
      assert (a + b)[1..] == a[1..] + b;
      UnitsAppend(a[1..], b, inAttr);
      var t, x, y := UnitText(a[0], inAttr), UnitsText(a[1..], inAttr), UnitsText(b, inAttr);
      assert t + (x + y) == t + x + y;
    }
  }

  lemma {:induction false} CharsText(s: string, guarded: bool, inAttr: bool)
    ensures UnitsText(Chars(s, guarded), inAttr) == if guarded then Escape(s, inAttr) else s
    ensures UnitsPlain(Chars(s, guarded)) == s
    decreases |s|
  {
    if s != "" {
      assert Chars(s, guarded)[1..] == Chars(s[1..], guarded);
      CharsText(s[1..], guarded, inAttr);
    }
  }

  lemma {:induction false} RunUnitsText(parts: seq<Part>, props: Props, inAttr: bool)
    requires AllTyped(parts, props)
    ensures UnitsText(RunUnits(parts, props), inAttr) == RenderedAll(parts, props, inAttr)
    ensures UnitsPlain(RunUnits(parts, props)) == Plain(parts, props)
    decreases |parts|
  {
    if parts != [] {
      var p := parts[0];
      RunUnitsText(parts[1..], props, inAttr);
      UnitsAppend(PartUnits(p, props), RunUnits(parts[1..], props), inAttr);
      if p.Lit? {
        CharsText(p.text, false, inAttr);
      } else {
        CharsText(Show(props[p.name]), !p.raw && props[p.name].Str?, inAttr);
      }
    }
  }

  /** No ampersand written without escaping can be read as the start of an escape. */
  predicate CleanRun(parts: seq<Part>, props: Props, inAttr: bool)
    requires AllTyped(parts, props)
  {
    Clean(RunUnits(parts, props), inAttr)
  }

  /** A rendered run decodes to what it stands for exactly when it is clean. */
  lemma RunReadsBack(parts: seq<Part>, props: Props, inAttr: bool)
    requires AllTyped(parts, props)
    ensures Decode(RenderedAll(parts, props, inAttr)) == Plain(parts, props) <==> CleanRun(parts, props, inAttr)
  {
    RunUnitsText(parts, props, inAttr);
    DecodeUnits(RunUnits(parts, props), inAttr);
  }

  /** Static text without an ampersand and escaped values are always clean. */
  predicate NoAmpersand(parts: seq<Part>) {
    forall i :: 0 <= i < |parts| ==> if parts[i].Lit? then '&' !in parts[i].text else !parts[i].raw
  }

  lemma {:induction false} NoAmpersandIsClean(parts: seq<Part>, props: Props, inAttr: bool)
    requires AllTyped(parts, props) && NoAmpersand(parts)
    ensures CleanRun(parts, props, inAttr)
    decreases |parts|
  {
    NoFixedAmpersand(parts, props);
  }

  lemma {:induction false} NoFixedAmpersand(parts: seq<Part>, props: Props)
    requires AllTyped(parts, props) && NoAmpersand(parts)
    ensures Fixed('&') !in RunUnits(parts, props)
    decreases |parts|
  {
    if parts != [] {
      NoFixedAmpersand(parts[1..], props);
    }
  }
}
