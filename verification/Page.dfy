/**
 * The page as the handlers see it: the row nodes under `#tbody` in document
 * order, the node objects, and the registry from row keys to nodes.
 */
module Page {
  import opened Wrappers

  /** A painted row: its key once tracked, its two text cells, its highlight class. */
  datatype RowNode = RowNode(key: Option<int>, id: int, text: string, danger: bool)

  /** Nodes are named by numbers, so that two rows can show equal text. */
  datatype Page = Page(kids: seq<nat>, nodes: map<nat, RowNode>, reg: map<int, nat>)

  /** What one row of the page shows, and the key of the row that owns it. */
  datatype Line = Line(key: int, id: int, text: string, danger: bool)

  ghost predicate Distinct<T(!new)>(xs: seq<T>) {
    forall i, j :: 0 <= i < j < |xs| ==> xs[i] != xs[j]
  }

  /** The page shows exactly these lines in order, and the registry finds each one. */
  ghost predicate Shows(p: Page, lines: seq<Line>) {
    && |p.kids| == |lines|
    && Distinct(p.kids)
    && (forall i :: 0 <= i < |lines| ==> Registered(p, lines[i], p.kids[i]))
    && (forall k :: k in p.reg ==> exists i :: 0 <= i < |lines| && lines[i].key == k)
  }

  ghost predicate Registered(p: Page, line: Line, n: nat) {
    && n in p.nodes
    && p.nodes[n] == RowNode(Some(line.key), line.id, line.text, line.danger)
    && line.key in p.reg && p.reg[line.key] == n
  }

  lemma ShownKeysDistinct(p: Page, lines: seq<Line>)
    requires Shows(p, lines)
    ensures forall i, j :: 0 <= i < j < |lines| ==> lines[i].key != lines[j].key
  {
    forall i, j | 0 <= i < j < |lines|
      ensures lines[i].key != lines[j].key
    {
      assert Registered(p, lines[i], p.kids[i]) && Registered(p, lines[j], p.kids[j]);
    }
  }

  /** The line a key owns. */
  function FindKey(lines: seq<Line>, key: int): (r: Option<nat>)
    ensures r.Some? ==> r.value < |lines| && lines[r.value].key == key
    ensures r.None? ==> forall i :: 0 <= i < |lines| ==> lines[i].key != key
    decreases |lines|
  {
    if lines == [] then None
    else if lines[|lines| - 1].key == key then Some(|lines| - 1)
    else FindKey(lines[..|lines| - 1], key)
  }

  // ---- the document primitives the handlers call ----

  function Detach(kids: seq<nat>, n: nat): seq<nat> {
    if kids == [] then [] else if kids[0] == n then kids[1..] else [kids[0]] + Detach(kids[1..], n)
  }

  function Place(kids: seq<nat>, n: nat, before: nat): seq<nat> {
    if kids == [] then [n]
    else if kids[0] == before then [n] + kids
    else [kids[0]] + Place(kids[1..], n, before)
  }

  function NextSibling(kids: seq<nat>, n: nat): Option<nat> {
    if kids == [] then None
    else if kids[0] == n then (if |kids| > 1 then Some(kids[1]) else None)
    else NextSibling(kids[1..], n)
  }

  /** `insertBefore` of a node that may already be a child; no reference appends. */
  function InsertBefore(kids: seq<nat>, n: nat, ref: Option<nat>): seq<nat> {
    var before := if ref == Some(n) then NextSibling(kids, n) else ref;
    if before.None? then Detach(kids, n) + [n] else Place(Detach(kids, n), n, before.value)
  }

  lemma {:induction false} DetachMid(a: seq<nat>, n: nat, b: seq<nat>)
    requires n !in a
    ensures Detach(a + [n] + b, n) == a + b
    ensures NextSibling(a + [n] + b, n) == if b == [] then None else Some(b[0])
    decreases |a|
  {
    var s := a + [n] + b;
    if a == [] {
      assert s[1..] == b;
      assert a + b == b;
    } else {
      DetachMid(a[1..], n, b);
      assert s[1..] == a[1..] + [n] + b;
      assert a + b == [a[0]] + (a[1..] + b);
    }
  }

  lemma {:induction false} PlaceMid(a: seq<nat>, n: nat, before: nat, b: seq<nat>)
    requires before !in a
    ensures Place(a + [before] + b, n, before) == a + [n, before] + b
    decreases |a|
  {
    var s := a + [before] + b;
    if a == [] {
      assert s == [before] + b;
      assert [n] + s == a + [n, before] + b;
    } else {
      PlaceMid(a[1..], n, before, b);
      assert s[1..] == a[1..] + [before] + b;
      assert a + [n, before] + b == [a[0]] + (a[1..] + [n, before] + b);
    }
  }

  lemma {:induction false} DetachAbsent(kids: seq<nat>, n: nat)
    requires n !in kids
    ensures Detach(kids, n) == kids
    decreases |kids|
  {
    if kids != [] {
      DetachAbsent(kids[1..], n);
    }
  }

  lemma {:induction false} DetachDrops(kids: seq<nat>, n: nat)
    requires Distinct(kids)
    ensures Distinct(Detach(kids, n))
    ensures forall x :: x in Detach(kids, n) <==> x in kids && x != n
    decreases |kids|
  {
    if kids != [] {
      DetachDrops(kids[1..], n);
      assert kids == [kids[0]] + kids[1..] && kids[0] !in kids[1..];
      var rest := Detach(kids[1..], n);
      assert forall i :: 0 <= i < |rest| ==> rest[i] in rest && rest[i] != kids[0];
    }
  }

  lemma Member<T>(keys: set<T>) returns (k: T)
    requires |keys| > 0
    ensures k in keys
  {
    k :| k in keys;
  }

  lemma HeadIsMember(kids: seq<nat>)
    ensures kids == [] || kids[0] in kids
  {
  }

  /** Moving a child before another child, or to the end. */
  lemma InsertBeforeMid(a: seq<nat>, n: nat, b: seq<nat>, c: seq<nat>, before: nat, d: seq<nat>)
    requires n !in a && before != n && before !in c && a + b == c + [before] + d
    ensures InsertBefore(a + [n] + b, n, Some(before)) == c + [n, before] + d
  {
    DetachMid(a, n, b);
    PlaceMid(c, n, before, d);
  }

  lemma InsertBeforeEnd(a: seq<nat>, n: nat, b: seq<nat>)
    requires n !in a
    ensures InsertBefore(a + [n] + b, n, None) == a + b + [n]
  {
    DetachMid(a, n, b);
  }

  // ---- swap_rows ----

  /** The two moves `swap_rows` makes, for the nodes of the two rows. */
  function SwapNodes(kids: seq<nat>, ta: nat, tb: nat): seq<nat> {
    var afterB := NextSibling(kids, tb);
    var moved := InsertBefore(kids, tb, Some(ta));
    InsertBefore(moved, ta, if afterB == Some(ta) then Some(tb) else afterB)
  }

  lemma DistinctMid(a: seq<nat>, n: nat, b: seq<nat>)
    requires Distinct(a + [n] + b)
    ensures n !in a && n !in b
  {
    var s := a + [n] + b;
    assert s[|a|] == n;
    assert forall i :: 0 <= i < |a| ==> s[i] == a[i];
    assert forall i :: 0 <= i < |b| ==> s[|a| + 1 + i] == b[i];
  }

  lemma SwapForward(a: seq<nat>, ta: nat, b: seq<nat>, tb: nat, c: seq<nat>)
    requires Distinct(a + [ta] + b + [tb] + c)
    ensures SwapNodes(a + [ta] + b + [tb] + c, ta, tb) == a + [tb] + b + [ta] + c
  {
    hide Detach; hide Place; hide NextSibling; hide InsertBefore;
    var kids := a + [ta] + b + [tb] + c;
    assert kids == a + [ta] + (b + [tb] + c);
    DistinctMid(a, ta, b + [tb] + c);
    DistinctMid(a + [ta] + b, tb, c);
    DetachMid(a + [ta] + b, tb, c);
    assert a + [ta] + b + c == a + [ta] + (b + c);
    InsertBeforeMid(a + [ta] + b, tb, c, a, ta, b + c);
    var moved := a + [tb, ta] + (b + c);
    assert moved == (a + [tb]) + [ta] + (b + c);
    if c == [] {
      InsertBeforeEnd(a + [tb], ta, b + c);
      assert a + [tb] + (b + c) + [ta] == a + [tb] + b + [ta] + c;
    } else {
      assert kids == (a + [ta] + b + [tb]) + [c[0]] + c[1..];
      DistinctMid(a + [ta] + b + [tb], c[0], c[1..]);
      assert a + [tb] + (b + c) == a + [tb] + b + [c[0]] + c[1..];
      InsertBeforeMid(a + [tb], ta, b + c, a + [tb] + b, c[0], c[1..]);
      assert a + [tb] + b + [ta, c[0]] + c[1..] == a + [tb] + b + [ta] + c;
    }
  }

  lemma SwapBackward(a: seq<nat>, tb: nat, b: seq<nat>, ta: nat, c: seq<nat>)
    requires Distinct(a + [tb] + b + [ta] + c)
    ensures SwapNodes(a + [tb] + b + [ta] + c, ta, tb) == a + [ta] + b + [tb] + c
  {
    hide Detach; hide Place; hide NextSibling; hide InsertBefore;
    var kids := a + [tb] + b + [ta] + c;
    assert kids == a + [tb] + (b + [ta] + c);
    DistinctMid(a, tb, b + [ta] + c);
    DistinctMid(a + [tb] + b, ta, c);
    DetachMid(a, tb, b + [ta] + c);
    assert a + (b + [ta] + c) == a + b + [ta] + c;
    InsertBeforeMid(a, tb, b + [ta] + c, a + b, ta, c);
    var moved := a + b + [tb, ta] + c;
    assert moved == (a + b + [tb]) + [ta] + c;
    if b == [] {
      assert a + b + [tb] + c == a + [tb] + c;
      InsertBeforeMid(a + b + [tb], ta, c, a, tb, c);
    } else {
      assert kids == (a + [tb]) + [b[0]] + (b[1..] + [ta] + c);
      DistinctMid(a + [tb], b[0], b[1..] + [ta] + c);
      assert a + b + [tb] + c == a + [b[0]] + (b[1..] + [tb] + c);
      InsertBeforeMid(a + b + [tb], ta, c, a, b[0], b[1..] + [tb] + c);
      assert a + [ta, b[0]] + (b[1..] + [tb] + c) == a + [ta] + b + [tb] + c;
    }
  }

  /** The two moves exchange the two nodes and leave every other child in place. */
  lemma SwapExchanges(kids: seq<nat>, i: nat, j: nat)
    requires Distinct(kids) && i < |kids| && j < |kids| && i != j
    ensures SwapNodes(kids, kids[i], kids[j]) == kids[i := kids[j]][j := kids[i]]
  {
    hide SwapNodes;
    var lo, hi := if i < j then i else j, if i < j then j else i;
    var a, x, b, y, c := kids[..lo], kids[lo], kids[lo + 1..hi], kids[hi], kids[hi + 1..];
    assert kids == a + [x] + b + [y] + c;
    assert kids[i := kids[j]][j := kids[i]] == a + [y] + b + [x] + c;
    if i < j {
      SwapForward(a, x, b, y, c);
    } else {
      SwapBackward(a, x, b, y, c);
    }
  }

  // ---- what each handler makes of the page ----

  /** The inserted interceptor: clone, fill, append, then track under the key. */
  function Paint(p: Page, n: nat, key: int, id: int, text: string): Page {
    p.(kids := p.kids + [n],
       nodes := p.nodes[n := RowNode(Some(key), id, text, false)],
       reg := p.reg[key := n])
  }

  lemma ShowsPaint(p: Page, lines: seq<Line>, n: nat, key: int, id: int, text: string)
    requires Shows(p, lines) && n !in p.nodes && key !in p.reg
    ensures Shows(Paint(p, n, key, id, text), lines + [Line(key, id, text, false)])
  {
    var q := Paint(p, n, key, id, text);
    var ext := lines + [Line(key, id, text, false)];
    forall i | 0 <= i < |ext|
      ensures Registered(q, ext[i], q.kids[i])
    {
      assert i < |lines| ==> Registered(p, lines[i], p.kids[i]);
    }
    forall k | k in q.reg
      ensures exists i :: 0 <= i < |ext| && ext[i].key == k
    {
      if k == key {
        assert ext[|lines|].key == k;
      } else {
        var i :| 0 <= i < |lines| && lines[i].key == k;
        assert ext[i].key == k;
      }
    }
    assert forall i :: 0 <= i < |lines| ==> Registered(p, lines[i], p.kids[i]);
  }

  /** `drop`: forget the key and detach its node; an unknown key is a no-op. */
  function Drop(p: Page, key: int): Page {
    if key !in p.reg then p
    else p.(kids := Detach(p.kids, p.reg[key]), reg := p.reg - {key})
  }

  function RemoveLine(lines: seq<Line>, i: nat): seq<Line>
    requires i < |lines|
  {
    lines[..i] + lines[i + 1..]
  }

  lemma ShowsDrop(p: Page, lines: seq<Line>, i: nat)
    requires Shows(p, lines) && i < |lines|
    ensures Shows(Drop(p, lines[i].key), RemoveLine(lines, i))
  {
    hide Drop; hide Registered;
    var q := Drop(p, lines[i].key);
    var rest := RemoveLine(lines, i);
    DropKids(p, lines, i);
    forall j | 0 <= j < |rest|
      ensures Registered(q, rest[j], q.kids[j])
    {
      DropKeeps(p, lines, i, if j < i then j else j + 1);
    }
    forall k | k in q.reg
      ensures exists j :: 0 <= j < |rest| && rest[j].key == k
    {
      DropLeavesKey(p, lines, i, k);
    }
  }

  lemma DropLeavesKey(p: Page, lines: seq<Line>, i: nat, k: int)
    requires Shows(p, lines) && i < |lines| && k in Drop(p, lines[i].key).reg
    ensures exists j :: 0 <= j < |RemoveLine(lines, i)| && RemoveLine(lines, i)[j].key == k
  {
    hide Drop; hide Registered; hide Distinct;
    DropRegistry(p, lines, i);
    var j :| 0 <= j < |lines| && lines[j].key == k;
    assert RemoveLine(lines, i)[if j < i then j else j - 1].key == k;
  }

  lemma RemoveKeepsDanger(lines: seq<Line>, i: nat, key: int)
    requires i < |lines| && OnlyDanger(lines, key)
    ensures OnlyDanger(RemoveLine(lines, i), key)
  {
  }

  lemma DropKeeps(p: Page, lines: seq<Line>, i: nat, m: nat)
    requires Shows(p, lines) && i < |lines| && m < |lines| && m != i
    ensures Registered(Drop(p, lines[i].key), lines[m], p.kids[m])
  {
    hide Detach;
    ShownKeysDistinct(p, lines);
    assert Registered(p, lines[i], p.kids[i]) && Registered(p, lines[m], p.kids[m]);
  }

  lemma DropRegistry(p: Page, lines: seq<Line>, i: nat)
    requires Shows(p, lines) && i < |lines|
    ensures Drop(p, lines[i].key).reg == p.reg - {lines[i].key}
  {
    hide Detach;
    assert Registered(p, lines[i], p.kids[i]);
  }

  lemma DropKids(p: Page, lines: seq<Line>, i: nat)
    requires Shows(p, lines) && i < |lines|
    ensures Drop(p, lines[i].key).kids == p.kids[..i] + p.kids[i + 1..]
  {
    hide Detach; hide NextSibling;
    assert Registered(p, lines[i], p.kids[i]);
    assert p.kids == p.kids[..i] + [p.kids[i]] + p.kids[i + 1..];
    DetachMid(p.kids[..i], p.kids[i], p.kids[i + 1..]);
  }

  /** `Row_repaint_label`: assign the label cell of the node the key owns. */
  function Repaint(p: Page, key: int, text: string): Page
    requires key in p.reg ==> p.reg[key] in p.nodes
  {
    if key !in p.reg then p
    else p.(nodes := p.nodes[p.reg[key] := p.nodes[p.reg[key]].(text := text)])
  }

  lemma ShowsRepaint(p: Page, lines: seq<Line>, i: nat, text: string)
    requires Shows(p, lines) && i < |lines|
    ensures lines[i].key in p.reg && p.reg[lines[i].key] in p.nodes
    ensures Shows(Repaint(p, lines[i].key, text), lines[i := lines[i].(text := text)])
  {
    assert Registered(p, lines[i], p.kids[i]);
    var q := Repaint(p, lines[i].key, text);
    var upd := lines[i := lines[i].(text := text)];
    forall j | 0 <= j < |upd|
      ensures Registered(q, upd[j], q.kids[j])
    {
      assert Registered(p, lines[j], p.kids[j]);
    }
    forall k | k in q.reg
      ensures exists j :: 0 <= j < |upd| && upd[j].key == k
    {
      var j :| 0 <= j < |lines| && lines[j].key == k;
      assert upd[j].key == k;
    }
  }

  function Swap(p: Page, a: int, b: int): Page
    requires a in p.reg && b in p.reg
  {
    p.(kids := SwapNodes(p.kids, p.reg[a], p.reg[b]))
  }

  lemma ShowsSwap(p: Page, lines: seq<Line>, i: nat, j: nat)
    requires Shows(p, lines) && i < |lines| && j < |lines| && i != j
    ensures lines[i].key in p.reg && lines[j].key in p.reg
    ensures Shows(Swap(p, lines[i].key, lines[j].key), lines[i := lines[j]][j := lines[i]])
  {
    hide SwapNodes;
    assert Registered(p, lines[i], p.kids[i]) && Registered(p, lines[j], p.kids[j]);
    SwapExchanges(p.kids, i, j);
    ExchangedShows(p, lines, i, j, Swap(p, lines[i].key, lines[j].key));
  }

  /** Exchanging two nodes and two lines together keeps the page right. */
  lemma ExchangedShows(p: Page, lines: seq<Line>, i: nat, j: nat, q: Page)
    requires Shows(p, lines) && i < |lines| && j < |lines|
    requires q.nodes == p.nodes && q.reg == p.reg && q.kids == p.kids[i := p.kids[j]][j := p.kids[i]]
    ensures Shows(q, lines[i := lines[j]][j := lines[i]])
  {
    hide Registered; hide Distinct;
    var upd := lines[i := lines[j]][j := lines[i]];
    ExchangedDistinct(p.kids, i, j);
    forall m | 0 <= m < |upd|
      ensures Registered(q, upd[m], q.kids[m])
    {
      var o := if m == i then j else if m == j then i else m;
      assert upd[m] == lines[o] && q.kids[m] == p.kids[o];
      SameRegistered(p, q, lines[o], p.kids[o]);
    }
    forall k | k in q.reg
      ensures exists m :: 0 <= m < |upd| && upd[m].key == k
    {
      var m :| 0 <= m < |lines| && lines[m].key == k;
      assert upd[if m == i then j else if m == j then i else m].key == k;
    }
  }

  lemma SameRegistered(p: Page, q: Page, line: Line, n: nat)
    requires q.nodes == p.nodes && q.reg == p.reg && Registered(p, line, n)
    ensures Registered(q, line, n)
  {
  }

  lemma ExchangedDistinct(kids: seq<nat>, i: nat, j: nat)
    requires Distinct(kids) && i < |kids| && j < |kids|
    ensures Distinct(kids[i := kids[j]][j := kids[i]])
  {
  }

  // ---- selection ----

  /** `querySelector("tr.danger")`: the first highlighted row in document order. */
  function FirstDanger(kids: seq<nat>, nodes: map<nat, RowNode>): Option<nat> {
    if kids == [] then None
    else if kids[0] in nodes && nodes[kids[0]].danger then Some(kids[0])
    else FirstDanger(kids[1..], nodes)
  }

  function SetDanger(nodes: map<nat, RowNode>, n: nat, danger: bool): map<nat, RowNode> {
    if n in nodes then nodes[n := nodes[n].(danger := danger)] else nodes
  }

  /** `select_row`: clear the highlighted row, then highlight the row of the key. */
  function Select(p: Page, key: int): Page {
    var prev := FirstDanger(p.kids, p.nodes);
    var cleared := if prev.Some? then SetDanger(p.nodes, prev.value, false) else p.nodes;
    p.(nodes := if key in p.reg then SetDanger(cleared, p.reg[key], true) else cleared)
  }

  function SelectLine(lines: seq<Line>, key: int): seq<Line> {
    seq(|lines|, i requires 0 <= i < |lines| => lines[i].(danger := lines[i].key == key))
  }

  ghost predicate OnlyDanger(lines: seq<Line>, key: int) {
    forall i :: 0 <= i < |lines| && lines[i].danger ==> lines[i].key == key
  }

  lemma {:induction false} FirstDangerFinds(kids: seq<nat>, nodes: map<nat, RowNode>)
    ensures var r := FirstDanger(kids, nodes);
            if r.Some? then r.value in kids && r.value in nodes && nodes[r.value].danger
            else forall i :: 0 <= i < |kids| ==> !(kids[i] in nodes && nodes[kids[i]].danger)
    decreases |kids|
  {
    if kids != [] {
      FirstDangerFinds(kids[1..], nodes);
      assert forall i :: 0 < i < |kids| ==> kids[i] == kids[1..][i - 1];
    }
  }

  lemma ShowsSelect(p: Page, lines: seq<Line>, current: int, key: int)
    requires Shows(p, lines) && OnlyDanger(lines, current)
    ensures Shows(Select(p, key), SelectLine(lines, key))
    ensures OnlyDanger(SelectLine(lines, key), key)
  {
    hide FirstDanger; hide SetDanger; hide Registered; hide Distinct;
    var q := Select(p, key);
    var upd := SelectLine(lines, key);
    forall i | 0 <= i < |upd|
      ensures Registered(q, upd[i], q.kids[i])
    {
      SelectOne(p, lines, current, key, i);
    }
    forall k | k in q.reg
      ensures exists i :: 0 <= i < |upd| && upd[i].key == k
    {
      var i :| 0 <= i < |lines| && lines[i].key == k;
      assert upd[i].key == k;
    }
  }

  lemma SelectOne(p: Page, lines: seq<Line>, current: int, key: int, i: nat)
    requires Shows(p, lines) && OnlyDanger(lines, current) && i < |lines|
    ensures Registered(Select(p, key), SelectLine(lines, key)[i], p.kids[i])
  {
    hide FirstDanger;
    ClearedOne(p, lines, current, i);
    assert Registered(p, lines[i], p.kids[i]);
    var prev := FirstDanger(p.kids, p.nodes);
    FirstDangerFinds(p.kids, p.nodes);
    if key in p.reg {
      var m :| 0 <= m < |lines| && lines[m].key == key;
      assert Registered(p, lines[m], p.kids[m]);
      assert p.kids[m] == p.kids[i] <==> m == i;
      assert lines[i].key == key ==> p.reg[key] == p.kids[i];
    }
  }

  /** After the highlight was taken off the first row that has it, no row has it. */
  lemma ClearedOne(p: Page, lines: seq<Line>, current: int, i: nat)
    requires Shows(p, lines) && OnlyDanger(lines, current) && i < |lines|
    ensures var prev := FirstDanger(p.kids, p.nodes);
            var cleared := if prev.Some? then SetDanger(p.nodes, prev.value, false) else p.nodes;
            p.kids[i] in cleared && p.kids[i] in p.nodes && cleared[p.kids[i]] == p.nodes[p.kids[i]].(danger := false)
  {
    hide FirstDanger;
    FirstDangerFinds(p.kids, p.nodes);
    assert Registered(p, lines[i], p.kids[i]);
    var prev := FirstDanger(p.kids, p.nodes);
    if prev.Some? {
      var j :| 0 <= j < |p.kids| && p.kids[j] == prev.value;
      assert Registered(p, lines[j], p.kids[j]);
    }
  }
}
