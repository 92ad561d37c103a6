/**
 * The table the store describes: row r of the store is line `pos` of the table.
 * Each store handler is related to the list edit it stands for.
 */
module Table {
  import opened Wrappers
  import opened RowStore
  import opened Page
  import ListApp

  /** The table as the reference application sees it. */
  function ItemsOf(lines: seq<Line>): (items: seq<ListApp.Item>)
    ensures |items| == |lines|
  {
    seq(|lines|, i requires 0 <= i < |lines| => ListApp.Item(lines[i].id, lines[i].text, lines[i].danger))
  }

  predicate Matches(line: Line, h: int, row: Row) {
    line.key == h && line.id == row.id && line.text == row.text
  }

  /** Every row sits on the line of its position, and every line belongs to a row. */
  ghost predicate Agree(s: Store, lines: seq<Line>) {
    && Inv(s)
    && |lines| == |s.rows|
    && (forall r :: 0 <= r < |s.rows| ==> PlacedRow(s, lines, r))
    && (forall i :: 0 <= i < |lines| ==> OwnedLine(s, lines, i))
  }

  ghost predicate PlacedRow(s: Store, lines: seq<Line>, r: nat)
    requires Inv(s) && r < |s.rows|
  {
    0 <= s.rows[r].pos < |lines| && Matches(lines[s.rows[r].pos], HandleOf(s, r), s.rows[r])
  }

  ghost predicate OwnedLine(s: Store, lines: seq<Line>, i: nat)
    requires Inv(s) && i < |lines|
  {
    RowOf(s, lines[i].key).Some? && s.rows[RowOf(s, lines[i].key).value].pos == i
  }

  /** A row sits on the line whose key is its handle, and the other way round. */
  lemma RowLine(s: Store, lines: seq<Line>, r: nat)
    requires Agree(s, lines) && r < |s.rows|
    ensures 0 <= s.rows[r].pos < |lines|
    ensures Matches(lines[s.rows[r].pos], HandleOf(s, r), s.rows[r])
    ensures RowOf(s, lines[s.rows[r].pos].key) == Some(r)
  {
    assert PlacedRow(s, lines, r);
    RowOfHandleOf(s, r);
  }

  lemma LineRow(s: Store, lines: seq<Line>, i: nat)
    requires Agree(s, lines) && i < |lines|
    ensures RowOf(s, lines[i].key).Some?
    ensures var r := RowOf(s, lines[i].key).value;
            s.rows[r].pos == i && HandleOf(s, r) == lines[i].key && Matches(lines[i], HandleOf(s, r), s.rows[r])
  {
    assert OwnedLine(s, lines, i);
    RowLine(s, lines, RowOf(s, lines[i].key).value);
    HandleOfRowOf(s, lines[i].key);
  }

  ghost predicate PosTaken(s: Store, i: int) {
    exists r :: 0 <= r < |s.rows| && s.rows[r].pos == i
  }

  /** The position column is a permutation of 0..len-1. */
  ghost predicate PosPermutation(s: Store) {
    && (forall r :: 0 <= r < |s.rows| ==> 0 <= s.rows[r].pos < |s.rows|)
    && (forall q, r :: 0 <= q < r < |s.rows| ==> s.rows[q].pos != s.rows[r].pos)
    && (forall i :: 0 <= i < |s.rows| ==> PosTaken(s, i))
  }

  lemma AgreePermutation(s: Store, lines: seq<Line>)
    requires Agree(s, lines)
    ensures PosPermutation(s)
  {
    forall r | 0 <= r < |s.rows|
      ensures 0 <= s.rows[r].pos < |s.rows| && RowOf(s, lines[s.rows[r].pos].key) == Some(r)
    {
      RowLine(s, lines, r);
    }
    forall i | 0 <= i < |s.rows|
      ensures PosTaken(s, i)
    {
      LineRow(s, lines, i);
    }
  }

  // ---- insert and clear ----

  lemma AgreeInsert(s: Store, lines: seq<Line>, id: int, text: string)
    requires Agree(s, lines) && |s.rows| < CAPACITY
    ensures var t := Insert(s, id, |lines|, text);
            Inv(t) && Agree(t, lines + [Line(HandleOf(t, |s.rows|), id, Truncate(text), false)])
  {
    var t := Insert(s, id, |lines|, text);
    InsertInv(s, id, |lines|, text);
    var ext := lines + [Line(HandleOf(t, |s.rows|), id, Truncate(text), false)];
    RowOfHandleOf(t, |s.rows|);
    forall r | 0 <= r < |t.rows|
      ensures PlacedRow(t, ext, r)
    {
      if r < |s.rows| {
        RowLine(s, lines, r);
        InsertKeepsHandles(s, id, |lines|, text, r);
      }
    }
    forall i | 0 <= i < |ext|
      ensures OwnedLine(t, ext, i)
    {
      if i < |lines| {
        LineRow(s, lines, i);
        var r := RowOf(s, lines[i].key).value;
        InsertKeepsHandles(s, id, |lines|, text, r);
        RowOfHandleOf(t, r);
      }
    }
  }

  /** The handle of an inserted row is not registered yet. */
  lemma FreshKey(s: Store, lines: seq<Line>, p: Page, id: int, pos: int, text: string)
    requires Agree(s, lines) && Shows(p, lines) && |s.rows| < CAPACITY
    ensures Inv(Insert(s, id, pos, text))
    ensures HandleOf(Insert(s, id, pos, text), |s.rows|) !in p.reg
  {
    InsertRefines(s, id, pos, text);
    var h := HandleOf(Insert(s, id, pos, text), |s.rows|);
    if h in p.reg {
      var i :| 0 <= i < |lines| && lines[i].key == h;
      LineRow(s, lines, i);
      LiveIffResolves(s, h);
    }
  }

  lemma AgreeClear(s: Store)
    requires Inv(s)
    ensures Agree(Clear(s), [])
  {
    ClearRefines(s);
  }

  // ---- the sweeps of the op rule ----

  /** Stores that differ only in positions resolve every handle alike. */
  lemma SameHandles(s: Store, t: Store)
    requires Inv(s)
    requires t == s.(rows := t.rows) && |t.rows| == |s.rows|
    ensures Inv(t)
    ensures forall r :: 0 <= r < |s.rows| ==> HandleOf(t, r) == HandleOf(s, r)
    ensures forall h :: RowOf(t, h) == RowOf(s, h)
  {
  }

  /** The code-77 sweep over rows 0..n: positions behind b move up by one. */
  function CloseGap(s: Store, b: int, n: nat): Store {
    s.(rows := seq(|s.rows|, r requires 0 <= r < |s.rows| =>
      if r < n && s.rows[r].pos > b then s.rows[r].(pos := s.rows[r].pos - 1) else s.rows[r]))
  }

  /** Taking a row and sweeping the gap shut removes exactly its line. */
  lemma AgreeRemove(s: Store, lines: seq<Line>, r: nat)
    requires Agree(s, lines) && r < |s.rows|
    ensures 0 <= s.rows[r].pos < |lines|
    ensures var u := TakeAt(s, r);
            Agree(CloseGap(u, s.rows[r].pos, |u.rows|), RemoveLine(lines, s.rows[r].pos)) &&
            |RemoveLine(lines, s.rows[r].pos)| == |lines| - 1
  {
    RowLine(s, lines, r);
    var b := s.rows[r].pos;
    var u := TakeAt(s, r);
    TakeAtInv(s, r);
    var t := CloseGap(u, b, |s.rows| - 1);
    SameHandles(u, t);
    var rest := RemoveLine(lines, b);
    forall i | 0 <= i < |t.rows|
      ensures PlacedRow(t, rest, i)
    {
      RemovePlaced(s, lines, r, i);
    }
    forall i | 0 <= i < |rest|
      ensures OwnedLine(t, rest, i)
    {
      RemoveOwned(s, lines, r, i);
    }
  }

  lemma RemovePlaced(s: Store, lines: seq<Line>, r: nat, i: nat)
    requires Agree(s, lines) && r < |s.rows| && i < |s.rows| - 1
    ensures 0 <= s.rows[r].pos < |lines|
    ensures var t := CloseGap(TakeAt(s, r), s.rows[r].pos, |s.rows| - 1);
            Inv(t) && PlacedRow(t, RemoveLine(lines, s.rows[r].pos), i)
  {
    RowLine(s, lines, r);
    TakeAtInv(s, r);
    SameHandles(TakeAt(s, r), CloseGap(TakeAt(s, r), s.rows[r].pos, |s.rows| - 1));
    TakeKeepsHandles(s, r, i);
    var j := TakeSource(s, r, i);
    RowLine(s, lines, j);
  }

  lemma RemoveOwned(s: Store, lines: seq<Line>, r: nat, i: nat)
    requires Agree(s, lines) && r < |s.rows| && i < |s.rows| - 1
    ensures 0 <= s.rows[r].pos < |lines|
    ensures var t := CloseGap(TakeAt(s, r), s.rows[r].pos, |s.rows| - 1);
            Inv(t) && OwnedLine(t, RemoveLine(lines, s.rows[r].pos), i)
  {
    hide RowsLinked; hide FreeLinked; hide SlotsPartitioned; hide RowOf;
    RowLine(s, lines, r);
    var b := s.rows[r].pos;
    TakeAtInv(s, r);
    var u := TakeAt(s, r);
    SameHandles(u, CloseGap(u, b, |s.rows| - 1));
    var j := if i < b then i else i + 1;
    assert RemoveLine(lines, b)[i] == lines[j];
    LineRow(s, lines, j);
    var q := RowOf(s, lines[j].key).value;
    var d := if q == |s.rows| - 1 then r else q;
    TakeKeepsHandles(s, r, d);
    RowOfHandleOf(u, d);
  }

  /** The code-6 sweep over rows 0..n: positions a and b trade places. */
  function SwapPos(s: Store, a: int, b: int, n: nat): Store {
    s.(rows := seq(|s.rows|, r requires 0 <= r < |s.rows| =>
      if r >= n then s.rows[r]
      else if s.rows[r].pos == a then s.rows[r].(pos := b)
      else if s.rows[r].pos == b then s.rows[r].(pos := a)
      else s.rows[r]))
  }

  /** The op rule on dense row r: swap under code 6, compact under code 77. */
  function OpsRow(s: Store, code: int, a: int, b: int, r: nat): Store
    requires r < |s.rows|
  {
    var pos := s.rows[r].pos;
    if code == 6 then
      if pos == a then WritePos(s, r, b) else if pos == b then WritePos(s, r, a) else s
    else if code == 77 && pos > b then WritePos(s, r, pos - 1)
    else s
  }

  /** The rule applied to the rows 0..n in dense order. */
  function OpsRows(s: Store, code: int, a: int, b: int, n: nat): Store {
    if code == 6 then SwapPos(s, a, b, n) else if code == 77 then CloseGap(s, b, n) else s
  }

  lemma OpsStep(s: Store, code: int, a: int, b: int, n: nat)
    requires n < |s.rows|
    ensures |OpsRows(s, code, a, b, n).rows| == |s.rows|
    ensures OpsRows(s, code, a, b, n).rows[n] == s.rows[n]
    ensures OpsRows(s, code, a, b, n + 1) == OpsRow(OpsRows(s, code, a, b, n), code, a, b, n)
  {
    assert OpsRows(s, code, a, b, n + 1).rows == OpsRow(OpsRows(s, code, a, b, n), code, a, b, n).rows;
  }

  /** The two lines to swap are those of the rows whose handles the sweep staged. */
  lemma LineOwners(s: Store, lines: seq<Line>, i: nat)
    requires Agree(s, lines) && i < |lines|
    ensures exists r :: 0 <= r < |s.rows| && s.rows[r].pos == i && HandleOf(s, r) == lines[i].key
  {
    LineRow(s, lines, i);
  }

  lemma OpsNone(s: Store, code: int, a: int, b: int)
    ensures OpsRows(s, code, a, b, 0) == s
  {
    assert OpsRows(s, code, a, b, 0).rows == s.rows;
  }

  function SwapLines(lines: seq<Line>, a: nat, b: nat): (upd: seq<Line>)
    requires a < |lines| && b < |lines|
    ensures |upd| == |lines|
  {
    lines[a := lines[b]][b := lines[a]]
  }

  lemma SwapKeepsDanger(lines: seq<Line>, a: nat, b: nat, key: int)
    requires a < |lines| && b < |lines| && OnlyDanger(lines, key)
    ensures OnlyDanger(SwapLines(lines, a, b), key)
  {
  }

  lemma AgreeSwap(s: Store, lines: seq<Line>, a: nat, b: nat)
    requires Agree(s, lines) && a < |lines| && b < |lines| && a != b
    ensures Agree(SwapPos(s, a, b, |s.rows|), SwapLines(lines, a, b))
  {
    var t := SwapPos(s, a, b, |s.rows|);
    SameHandles(s, t);
    var upd := lines[a := lines[b]][b := lines[a]];
    forall r | 0 <= r < |t.rows|
      ensures PlacedRow(t, upd, r)
    {
      RowLine(s, lines, r);
    }
    forall i | 0 <= i < |upd|
      ensures OwnedLine(t, upd, i)
    {
      LineRow(s, lines, if i == a then b else if i == b then a else i);
    }
  }

  // ---- the tenth rule ----

  /** Writing one row's text changes its own line and no other. */
  lemma AgreeText(s: Store, lines: seq<Line>, r: nat, text: string)
    requires Agree(s, lines) && r < |s.rows|
    ensures 0 <= s.rows[r].pos < |lines|
    ensures var i := s.rows[r].pos;
            Agree(WriteText(s, r, text), lines[i := lines[i].(text := Truncate(text))])
  {
    RowLine(s, lines, r);
    var i := s.rows[r].pos;
    var t := WriteText(s, r, text);
    SameHandles(s, t);
    var upd := lines[i := lines[i].(text := Truncate(text))];
    forall q | 0 <= q < |t.rows|
      ensures PlacedRow(t, upd, q)
    {
      RowLine(s, lines, q);
    }
    forall j | 0 <= j < |upd|
      ensures OwnedLine(t, upd, j)
    {
      LineRow(s, lines, j);
    }
  }

  function Mark(text: string): string {
    text + ListApp.MARK
  }

  /** The tenth rule on dense row r, under code 4. */
  function MarkRow(s: Store, r: nat): Store
    requires r < |s.rows|
  {
    if s.rows[r].pos % 10 == 0 then WriteText(s, r, Mark(s.rows[r].text)) else s
  }

  function MarkLine(lines: seq<Line>, i: int): seq<Line>
    requires 0 <= i < |lines|
  {
    if i % 10 == 0 then lines[i := lines[i].(text := Truncate(Mark(lines[i].text)))] else lines
  }

  /** The rule applied to the rows 0..n in dense order. */
  function MarkRows(s: Store, n: nat): (t: Store)
    requires n <= |s.rows|
    ensures |t.rows| == |s.rows|
  {
    if n == 0 then s else MarkRow(MarkRows(s, n - 1), n - 1)
  }

  lemma {:induction false} MarkRowsAt(s: Store, n: nat, r: nat)
    requires n <= |s.rows| && r < |s.rows|
    ensures MarkRows(s, n).rows[r] ==
            if r < n && s.rows[r].pos % 10 == 0 then s.rows[r].(text := Truncate(Mark(s.rows[r].text))) else s.rows[r]
    decreases n
  {
    if n > 0 {
      MarkRowsAt(s, n - 1, r);
      MarkRowsAt(s, n - 1, n - 1);
    }
  }

  /** The lines after the rule ran on the rows 0..n. */
  ghost function MarkedBelow(s: Store, lines: seq<Line>, n: nat): seq<Line>
    requires Agree(s, lines)
  {
    seq(|lines|, i requires 0 <= i < |lines| =>
      if i % 10 == 0 && OwnerOf(s, lines, i) < n then lines[i].(text := Truncate(Mark(lines[i].text))) else lines[i])
  }

  ghost function OwnerOf(s: Store, lines: seq<Line>, i: nat): (r: nat)
    requires Agree(s, lines) && i < |lines|
    ensures r < |s.rows| && s.rows[r].pos == i
  {
    LineRow(s, lines, i);
    RowOf(s, lines[i].key).value
  }

  lemma MarkStep(s: Store, lines: seq<Line>, r: nat)
    requires Agree(s, lines) && r < |s.rows|
    ensures 0 <= s.rows[r].pos < |lines|
    ensures MarkedBelow(s, lines, r + 1) == MarkLine(MarkedBelow(s, lines, r), s.rows[r].pos)
  {
    RowLine(s, lines, r);
    var i := s.rows[r].pos;
    forall j | 0 <= j < |lines|
      ensures MarkedBelow(s, lines, r + 1)[j] == MarkLine(MarkedBelow(s, lines, r), i)[j]
    {
      if OwnerOf(s, lines, j) == r {
        assert j == i;
      }
    }
  }

  lemma MarkEnds(s: Store, lines: seq<Line>)
    requires Agree(s, lines)
    ensures MarkedBelow(s, lines, 0) == lines
    ensures ItemsOf(MarkedBelow(s, lines, |s.rows|)) == ListApp.MarkTenth(ItemsOf(lines))
  {
    forall i | 0 <= i < |lines|
      ensures OwnerOf(s, lines, i) < |s.rows|
    {
    }
  }

  /** Highlighting does not concern the store. */
  lemma AgreeSelect(s: Store, lines: seq<Line>, key: int)
    requires Agree(s, lines)
    ensures Agree(s, SelectLine(lines, key))
  {
    var upd := SelectLine(lines, key);
    forall r | 0 <= r < |s.rows|
      ensures PlacedRow(s, upd, r)
    {
      RowLine(s, lines, r);
    }
    forall i | 0 <= i < |upd|
      ensures OwnedLine(s, upd, i)
    {
      LineRow(s, lines, i);
    }
  }

  /** A key resolves in the store exactly when it owns a line, its row's line. */
  lemma KeyOwnsLine(s: Store, p: Page, lines: seq<Line>, key: int)
    requires Agree(s, lines) && Shows(p, lines)
    ensures RowOf(s, key).Some? <==> FindKey(lines, key).Some?
    ensures RowOf(s, key).Some? ==>
              var pos := s.rows[RowOf(s, key).value].pos;
              pos >= 0 && FindKey(lines, key) == Some(pos)
    ensures Resolve(s, key).Ok? <==> FindKey(lines, key).Some?
  {
    var found := FindKey(lines, key);
    if RowOf(s, key).Some? {
      var r := RowOf(s, key).value;
      RowLine(s, lines, r);
      HandleOfRowOf(s, key);
      ShownKeysDistinct(p, lines);
    }
    if found.Some? {
      LineRow(s, lines, found.value);
    }
  }

  lemma SelectItems(p: Page, lines: seq<Line>, key: int)
    requires Shows(p, lines)
    ensures ItemsOf(SelectLine(lines, key)) == ListApp.SelectAt(ItemsOf(lines), FindKey(lines, key))
  {
    ShownKeysDistinct(p, lines);
  }

  lemma SwapItems(lines: seq<Line>, i: nat, j: nat)
    requires i < |lines| && j < |lines|
    ensures ItemsOf(SwapLines(lines, i, j)) == ListApp.Exchange(ItemsOf(lines), i, j)
  {
  }

  lemma RemoveItems(lines: seq<Line>, i: nat)
    requires i < |lines|
    ensures ItemsOf(RemoveLine(lines, i)) == ListApp.Remove(ItemsOf(lines), i)
  {
  }

  /** The key a click outside every row carries owns no line. */
  lemma ZeroOwnsNothing(s: Store, lines: seq<Line>)
    requires Agree(s, lines)
    ensures FindKey(lines, 0).None?
  {
    var found := FindKey(lines, 0);
    if found.Some? {
      LineRow(s, lines, found.value);
    }
  }

  lemma KeyAtFinds(p: Page, lines: seq<Line>, i: nat)
    requires Shows(p, lines) && i < |lines|
    ensures FindKey(lines, lines[i].key) == Some(i)
  {
    ShownKeysDistinct(p, lines);
  }

  /** A page that shows lines shows, cell by cell, the items of the reference. */
  ghost predicate Displays(p: Page, items: seq<ListApp.Item>) {
    && |p.kids| == |items|
    && (forall i :: 0 <= i < |items| ==>
          p.kids[i] in p.nodes &&
          p.nodes[p.kids[i]].id == items[i].id &&
          p.nodes[p.kids[i]].text == items[i].text &&
          p.nodes[p.kids[i]].danger == items[i].selected)
  }

  lemma ShowsDisplays(p: Page, lines: seq<Line>)
    requires Shows(p, lines)
    ensures Displays(p, ItemsOf(lines))
  {
    assert forall i :: 0 <= i < |lines| ==> Registered(p, lines[i], p.kids[i]);
  }

  /** The registry's keys are exactly the live handles. */
  lemma RegistryIsLive(s: Store, p: Page, lines: seq<Line>)
    requires Agree(s, lines) && Shows(p, lines)
    ensures p.reg.Keys == LiveHandles(s)
  {
    forall h
      ensures h in p.reg.Keys <==> h in LiveHandles(s)
    {
      LiveIffResolves(s, h);
      KeyOwnsLine(s, p, lines, h);
      var found := FindKey(lines, h);
      if found.Some? {
        assert Registered(p, lines[found.value], p.kids[found.value]);
      }
    }
  }
}
