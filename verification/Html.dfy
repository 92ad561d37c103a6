/**
 * The browser's side: trees of elements and text, and the parser that builds
 * them. The grammar is the one the compiler writes: elements, void elements,
 * bare and quoted attributes, text, and the five escapes.
 */
module Html {
  import opened Wrappers
  import opened Markup
  import opened Escapes

  datatype Dom = El(tag: string, attrs: map<string, string>, kids: Doms) | Txt(text: string)

  datatype Doms = DNil | DCons(head: Dom, tail: Doms)

  predicate IsLetter(c: char) {
    'a' <= c <= 'z' || 'A' <= c <= 'Z'
  }

  /** The attributes of a tag at p, and where the tag's last character stands. The first of two equal names wins. */
  function ParseAttrs(s: string, p: nat): (r: Option<(map<string, string>, nat)>)
    requires p <= |s|
    ensures r.Some? ==> p <= r.value.1 < |s|
    decreases |s| - p
  {
    var i := SpaceEnd(s, p);
    if i >= |s| then None
    else if s[i] == '>' then Some((map[], i))
    else if s[i] == '/' then if i + 1 < |s| && s[i + 1] == '>' then Some((map[], i + 1)) else None
    else
      var n := NameEnd(s, i);
      if n == i then None
      else if n < |s| && s[n] == '=' then
        if n + 1 < |s| && s[n + 1] == '"' then
          var q := Until(s, '"', n + 2);
          if q >= |s| then None
          else
            var rest := ParseAttrs(s, q + 1);
            if rest.None? then None else Some((rest.value.0[s[i..n] := Decode(s[n + 2..q])], rest.value.1))
        else None
      else
        var rest := ParseAttrs(s, n);
        if rest.None? then None else Some((rest.value.0[s[i..n] := ""], rest.value.1))
  }

  /** The element at p, and where it ends. */
  function ParseElem(s: string, p: nat): (r: Option<(Dom, nat)>)
    requires p <= |s|
    ensures r.Some? ==> p < r.value.1 <= |s| && r.value.0.El?
    decreases |s| - p, 0
  {
    if p + 1 >= |s| || s[p] != '<' || !IsLetter(s[p + 1]) then None
    else
      var n := NameEnd(s, p + 1);
      var tag := s[p + 1..n];
      var attrs := ParseAttrs(s, n);
      if attrs.None? then None
      else if tag in VOID_TAGS then Some((El(tag, attrs.value.0, DNil), attrs.value.1 + 1))
      else
        var body := ParseNodes(s, attrs.value.1 + 1, tag);
        if body.None? then None else Some((El(tag, attrs.value.0, body.value.0), body.value.1))
  }

  /** The content at p, through the closing tag. */
  function ParseNodes(s: string, p: nat, tag: string): (r: Option<(Doms, nat)>)
    requires p <= |s|
    ensures r.Some? ==> p < r.value.1 <= |s|
    decreases |s| - p, 1
  {
    var lt := Until(s, '<', p);
    if lt >= |s| then None
    else if lt > p then
      var rest := ParseNodes(s, lt, tag);
      if rest.None? then None else Some((DCons(Txt(Decode(s[p..lt])), rest.value.0), rest.value.1))
    else if p + 1 < |s| && s[p + 1] == '/' then
      var gt := Until(s, '>', p + 2);
      if gt >= |s| || s[p + 2..gt] != tag then None else Some((DNil, gt + 1))
    else
      var child := ParseElem(s, p);
      if child.None? then None
      else
        var rest := ParseNodes(s, child.value.1, tag);
        if rest.None? then None else Some((DCons(child.value.0, rest.value.0), rest.value.1))
  }

  /** The tree of a text that is one element and nothing else. */
  function Parse(s: string): Option<Dom> {
    var r := ParseElem(s, 0);
    if r.None? || r.value.1 != |s| then None else Some(r.value.0)
  }
}
