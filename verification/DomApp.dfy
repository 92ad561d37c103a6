/**
 * The keyed DOM application: the store, its interceptors and rules, and the click
 * arms, updating the store cells, the registry and the page in place.
 */
module DomApp {
  import opened Wrappers
  import opened RowStore
  import opened RowArrays
  import opened Page
  import opened Table
  import opened Labels
  import ListApp

  /** A click of the user: an action code, the row it lands in if any, the labels drawn. */
  datatype Input = Input(action: int, row: Option<nat>, draws: seq<Draw>) {
    predicate WellFormed() {
      |draws| == ListApp.BuildCount(action)
    }

    function AsClick(): ListApp.Click {
      ListApp.Click(action, row, MakeLabels(draws))
    }
  }

  function Clicks(inputs: seq<Input>): seq<ListApp.Click> {
    seq(|inputs|, i requires 0 <= i < |inputs| => inputs[i].AsClick())
  }

  class App {
    const rows: Rows
    var seqNext: int
    var cntN: int
    var opCode: int
    var opA: int
    var opB: int
    var opIda: int
    var opIdb: int
    var selCur: int
    var kids: seq<nat>
    var nodes: map<nat, RowNode>
    var reg: map<int, nat>
    var nextNode: nat
    ghost var lines: seq<Line>

    ghost function Repr(): set<object> {
      {this} + rows.Repr()
    }

    ghost function Shown(): Page
      reads this
    {
      Page(kids, nodes, reg)
    }

    /** The store and its cells apart from the page are private to the application. */
    ghost predicate Sound()
      reads this, rows, rows.Repr()
    {
      this !in rows.Repr() && rows.Valid()
    }

    /** The page shows the ghost lines; node names at nextNode and above are unused. */
    ghost predicate Painted()
      reads this
    {
      Shows(Shown(), lines) && forall n :: n in nodes ==> n < nextNode
    }

    ghost predicate Synced()
      reads this, rows, rows.Repr()
    {
      Sound() && Painted() && Agree(rows.Abs(), lines) && OnlyDanger(lines, selCur)
    }

    /** What holds between clicks. */
    ghost predicate Valid()
      reads this, rows, rows.Repr()
    {
      Synced() && cntN == |lines| && opCode == 0
    }

    /** The table as the reference application sees it. */
    ghost function View(): ListApp.Model
      reads this
    {
      ListApp.Model(ItemsOf(lines), seqNext)
    }

    constructor ()
      ensures Valid() && fresh(Repr())
      ensures View() == ListApp.Model([], 1)
    {
      rows := new Rows();
      seqNext, cntN, selCur := 1, 0, 0;
      opCode, opA, opB, opIda, opIdb := 0, 0, 0, 0, 0;
      kids, nodes, reg, nextNode := [], map[], map[], 0;
      lines := [];
    }

    // ---- interceptors ----

    method Inserted(id: int, text: string, h: int)
      requires Painted() && h !in reg
      modifies this`kids, this`nodes, this`reg, this`nextNode, this`lines
      ensures Painted()
      ensures lines == old(lines) + [Line(h, id, text, false)]
    {
      ShowsPaint(Shown(), lines, nextNode, h, id, text);
      var node := nextNode;
      nextNode := nextNode + 1;
      nodes := nodes[node := RowNode(None, id, text, false)];
      kids := kids + [node];
      reg := reg[h := node];
      nodes := nodes[node := nodes[node].(key := Some(h))];
      ghost var line := Line(h, id, text, false);
      assert nodes == old(nodes)[node := RowNode(Some(h), id, text, false)];
      lines := lines + [line];
    }

    method Removed(h: int, ghost i: nat)
      requires Painted() && i < |lines| && lines[i].key == h
      modifies this`kids, this`reg, this`lines, this`cntN
      ensures Painted()
      ensures lines == RemoveLine(old(lines), i)
      ensures cntN == old(cntN) - 1
    {
      ShowsDrop(Shown(), lines, i);
      lines := RemoveLine(lines, i);
      if h in reg {
        var node := reg[h];
        reg := reg - {h};
        kids := Detach(kids, node);
      }
      cntN := cntN - 1;
    }

    method Cleared()
      requires Painted()
      modifies this`kids, this`reg, this`lines, this`cntN
      ensures Painted()
      ensures lines == [] && cntN == 0
    {
      var pending := reg.Keys;
      ghost var before := kids;
      assert forall i :: 0 <= i < |lines| ==> Registered(Shown(), lines[i], kids[i]);
      while |pending| > 0
        invariant reg == old(reg) && lines == old(lines)
        invariant pending <= reg.Keys && Distinct(kids)
        invariant forall n :: n in kids ==> n in before
        invariant forall i :: 0 <= i < |lines| && lines[i].key !in pending ==> before[i] !in kids
        decreases pending
      {
        ghost var some := Member(pending);
        var k :| k in pending;
        pending := pending - {k};
        DetachDrops(kids, reg[k]);
        kids := Detach(kids, reg[k]);
      }
      HeadIsMember(kids);
      reg := map[];
      lines := [];
      cntN := 0;
    }

    // ---- store operations with their interceptors ----

    /**
     * Inserting from the build flow, whose site line runs no rule on the new row.
     * The store truncates the label to its column; the page shows all of it.
     */
    method InsertF(id: int, text: string) returns (row: Option<int>)
      requires Synced() && cntN == |lines|
      modifies this`kids, this`nodes, this`reg, this`nextNode, this`lines, rows.Repr()
      ensures Sound() && Painted()
      ensures row.Some? <==> |old(lines)| < CAPACITY
      ensures row.None? ==> lines == old(lines) && rows.Abs() == old(rows.Abs())
      ensures row.Some? ==> lines == old(lines) + [Line(row.value, id, text, false)]
      ensures row.Some? ==> Agree(rows.Abs(), old(lines) + [Line(row.value, id, Truncate(text), false)])
    {
      hide RowsLinked; hide FreeLinked; hide SlotsPartitioned; hide Insert;
      ghost var s := rows.Abs();
      var dense := rows.InsertRow(id, cntN, text);
      if dense.None? { return None; }
      FreshKey(s, lines, Shown(), id, cntN, text);
      AgreeInsert(s, lines, id, text);
      var h := rows.Handle(dense.value);
      Inserted(id, text, h);
      return Some(h);
    }

    /** `__store_take_rows`: the interceptor runs before the row is compacted away. */
    method Take(key: int) returns (item: Option<Row>)
      requires Synced()
      modifies this`kids, this`reg, this`lines, this`cntN, rows.Repr()
      ensures Sound() && Painted() && OnlyDanger(lines, selCur)
      ensures item.Some? <==> RowOf(old(rows.Abs()), key).Some?
      ensures item.None? ==> lines == old(lines) && cntN == old(cntN) && rows.Abs() == old(rows.Abs())
      ensures item.Some? ==>
                var s, r := old(rows.Abs()), RowOf(old(rows.Abs()), key).value;
                item.value == s.rows[r] && 0 <= s.rows[r].pos < |old(lines)| &&
                old(lines)[s.rows[r].pos].key == key &&
                lines == RemoveLine(old(lines), s.rows[r].pos) &&
                rows.Abs() == TakeAt(s, r) && cntN == old(cntN) - 1
    {
      hide RowsLinked; hide FreeLinked; hide SlotsPartitioned; hide Shows; hide TakeAt; hide RemoveLine;
      ghost var s := rows.Abs();
      var found := rows.FindRow(key);
      if found.None? { return None; }
      var r := found.value;
      RowLine(s, lines, r);
      HandleOfRowOf(s, key);
      var out := rows.ReadRow(r);
      var h := rows.Handle(r);
      RemoveKeepsDanger(lines, s.rows[r].pos, selCur);
      Removed(h, s.rows[r].pos);
      rows.RemoveRow(r);
      return Some(out);
    }

    method ClearStore()
      requires Synced()
      modifies this`kids, this`reg, this`lines, this`cntN, rows.Repr()
      ensures Synced()
      ensures lines == [] && cntN == 0
    {
      AgreeClear(rows.Abs());
      rows.ClearRows();
      Cleared();
    }

    method BuildOne(draw: Draw)
      requires Valid()
      modifies this`kids, this`nodes, this`reg, this`nextNode, this`lines, this`seqNext, this`cntN, rows.Repr()
      ensures Valid()
      ensures View() == ListApp.Add(old(View()), MakeLabel(draw))
    {
      hide Agree; hide Inv; hide Shows; hide MakeLabel;
      var text := MakeLabel(draw);
      LabelFits(draw);
      var row := InsertF(seqNext, text);
      if row.Some? {
        seqNext := seqNext + 1;
        cntN := cntN + 1;
        assert ItemsOf(lines) == ItemsOf(old(lines)) + [ListApp.Item(old(seqNext), text, false)];
      }
    }

    method Build(draws: seq<Draw>)
      requires Valid()
      modifies this`kids, this`nodes, this`reg, this`nextNode, this`lines, this`seqNext, this`cntN, rows.Repr()
      ensures Valid()
      ensures View() == ListApp.Build(old(View()), MakeLabels(draws))
    {
      hide Agree; hide Inv; hide Shows; hide MakeLabel;
      ghost var m := View();
      var k := 0;
      while k < |draws|
        invariant 0 <= k <= |draws|
        invariant Valid()
        invariant View() == ListApp.Build(m, MakeLabels(draws[..k]))
      {
        BuildOne(draws[k]);
        k := k + 1;
        ghost var labels := MakeLabels(draws[..k]);
        assert labels[..k - 1] == MakeLabels(draws[..k - 1]) && labels[k - 1] == MakeLabel(draws[k - 1]);
      }
      assert draws[..k] == draws;
    }

    // ---- rules ----

    /** `Row_repaint_label`. */
    method RepaintRow(key: int, text: string, ghost i: nat)
      requires Painted() && i < |lines| && lines[i].key == key
      modifies this`nodes, this`lines
      ensures Painted()
      ensures lines == old(lines)[i := old(lines)[i].(text := text)]
    {
      ShowsRepaint(Shown(), lines, i, text);
      if key in reg {
        var node := reg[key];
        nodes := nodes[node := nodes[node].(text := text)];
      }
      lines := lines[i := lines[i].(text := text)];
    }

    /** The tenth rule on one row: only under code 4 it marks the label and repaints. */
    method TenthRow(r: nat)
      requires Sound() && r < rows.len
      requires opCode == 4 ==> Synced()
      modifies this`nodes, this`lines, rows.Repr()
      ensures Sound()
      ensures opCode != 4 ==> rows.Abs() == old(rows.Abs()) && lines == old(lines) && nodes == old(nodes)
      ensures opCode == 4 ==>
                Synced() && rows.Abs() == MarkRow(old(rows.Abs()), r) &&
                0 <= old(rows.Abs()).rows[r].pos < |old(lines)| &&
                lines == MarkLine(old(lines), old(rows.Abs()).rows[r].pos)
    {
      hide Inv; hide Shows;
      ghost var s := rows.Abs();
      var pos := rows.pos[r];
      var h := rows.Handle(r);
      if ((pos % 10) + 10) % 10 != 0 {
        if opCode == 4 { RowLine(s, lines, r); }
        return;
      }
      if opCode == 4 {
        var marked := rows.text[r] + ListApp.MARK;
        RowLine(s, lines, r);
        AgreeText(s, lines, r, marked);
        rows.SetText(r, marked);
        assert rows.Abs().rows[r].text == Truncate(Mark(s.rows[r].text));
        RepaintRow(h, rows.text[r], pos);
      }
    }

    method TenthSweep()
      requires Sound()
      requires opCode == 4 ==> Synced()
      modifies this`nodes, this`lines, rows.Repr()
      ensures Sound()
      ensures opCode != 4 ==> rows.Abs() == old(rows.Abs()) && lines == old(lines) && nodes == old(nodes)
      ensures opCode == 4 ==> Synced() && ItemsOf(lines) == ListApp.MarkTenth(ItemsOf(old(lines)))
    {
      hide Inv; hide Shows; hide Agree; hide StoreOf;
      RowsLength(rows.Cols());
      ghost var s, before := rows.Abs(), lines;
      if opCode == 4 { MarkEnds(s, lines); }
      var i := 0;
      while i < rows.len
        invariant 0 <= i <= rows.len == |s.rows|
        invariant Sound()
        invariant opCode != 4 ==> rows.Abs() == s && lines == before && nodes == old(nodes)
        invariant opCode == 4 ==> Synced() && rows.Abs() == MarkRows(s, i) && lines == MarkedBelow(s, before, i)
      {
        if opCode == 4 {
          MarkRowsAt(s, i, i);
          MarkStep(s, before, i);
        }
        TenthRow(i);
        RowsLength(rows.Cols());
        i := i + 1;
      }
    }

    /** The op rule on one row, staging the handles of the swapped rows. */
    method OpRow(r: nat)
      requires Sound() && r < rows.len
      modifies this`opIda, this`opIdb, rows.Repr()
      ensures Sound()
      ensures rows.Abs() == OpsRow(old(rows.Abs()), opCode, opA, opB, r)
      ensures var s := old(rows.Abs());
              opIda == (if opCode == 6 && s.rows[r].pos == opA then HandleOf(s, r) else old(opIda)) &&
              opIdb == (if opCode == 6 && s.rows[r].pos != opA && s.rows[r].pos == opB
                        then HandleOf(s, r) else old(opIdb))
    {
      hide Inv;
      var h := rows.Handle(r);
      if opCode == 6 {
        if rows.pos[r] == opA {
          rows.SetPos(r, opB);
          opIda := h;
        } else if rows.pos[r] == opB {
          rows.SetPos(r, opA);
          opIdb := h;
        }
      } else if opCode == 77 {
        if rows.pos[r] > opB {
          rows.SetPos(r, rows.pos[r] - 1);
        }
      }
    }

    ghost predicate Staged(s: Store, n: nat)
      requires Inv(s) && n <= |s.rows|
      reads this
    {
      && (forall r :: 0 <= r < n && s.rows[r].pos == opA ==> opIda == HandleOf(s, r))
      && (forall r :: 0 <= r < n && s.rows[r].pos == opB ==> opIdb == HandleOf(s, r))
    }

    method OpSweep()
      requires Sound()
      requires opCode == 6 ==> opA != opB && PosPermutation(rows.Abs())
      modifies this`opIda, this`opIdb, rows.Repr()
      ensures Sound()
      ensures rows.Abs() == OpsRows(old(rows.Abs()), opCode, opA, opB, |old(rows.Abs()).rows|)
      ensures opCode == 6 ==> Staged(old(rows.Abs()), |old(rows.Abs()).rows|)
    {
      hide Inv; hide StoreOf; hide OpsRow;
      RowsLength(rows.Cols());
      ghost var s := rows.Abs();
      OpsNone(s, opCode, opA, opB);
      var i := 0;
      while i < rows.len
        invariant 0 <= i <= rows.len == |s.rows|
        invariant Sound()
        invariant rows.Abs() == OpsRows(s, opCode, opA, opB, i)
        invariant opCode == 6 ==> Staged(s, i)
      {
        OpsStep(s, opCode, opA, opB, i);
        OpRow(i);
        RowsLength(rows.Cols());
        i := i + 1;
      }
    }

    /** `__store_stripe_rows`: one full sweep per rule. */
    method Stripe()
      requires Sound()
      requires opCode == 4 ==> Synced()
      requires opCode == 6 ==> opA != opB && PosPermutation(rows.Abs())
      modifies this`nodes, this`lines, this`opIda, this`opIdb, rows.Repr()
      ensures Sound()
      ensures opCode == 4 ==> Synced() && ItemsOf(lines) == ListApp.MarkTenth(ItemsOf(old(lines)))
      ensures opCode != 4 ==> lines == old(lines) && nodes == old(nodes)
      ensures opCode != 4 ==> rows.Abs() == OpsRows(old(rows.Abs()), opCode, opA, opB, |old(rows.Abs()).rows|)
      ensures opCode == 6 ==> Staged(old(rows.Abs()), |old(rows.Abs()).rows|)
    {
      hide Inv; hide Shows; hide Agree; hide PosPermutation; hide SwapPos; hide CloseGap;
      TenthSweep();
      OpSweep();
    }

    // ---- the handlers behind the buttons ----

    /** `swap_rows`: two moves in the document. */
    method SwapRows(a: int, b: int, ghost i: nat, ghost j: nat)
      requires Painted() && i < |lines| && j < |lines| && i != j
      requires lines[i].key == a && lines[j].key == b
      modifies this`kids, this`lines
      ensures Painted()
      ensures lines == SwapLines(old(lines), i, j)
    {
      ShowsSwap(Shown(), lines, i, j);
      hide Shows; hide InsertBefore; hide NextSibling;
      var ta := reg[a];
      var tb := reg[b];
      var afterB := NextSibling(kids, tb);
      kids := InsertBefore(kids, tb, Some(ta));
      kids := InsertBefore(kids, ta, if afterB == Some(ta) then Some(tb) else afterB);
      lines := SwapLines(lines, i, j);
    }

    /** Clicking a label: write `sel.cur`, whose watch moves the highlight. */
    method SelectRow(key: int)
      requires Synced()
      modifies this`selCur, this`nodes, this`lines
      ensures Synced() && selCur == key
      ensures lines == SelectLine(old(lines), key)
    {
      hide Inv; hide Shows; hide Agree;
      ShowsSelect(Shown(), lines, selCur, key);
      AgreeSelect(rows.Abs(), lines, key);
      selCur := key;
      var prev := FirstDanger(kids, nodes);
      if prev.Some? {
        nodes := SetDanger(nodes, prev.value, false);
      }
      if key in reg {
        nodes := SetDanger(nodes, reg[key], true);
      }
      lines := SelectLine(lines, key);
    }

    /** Update every tenth row. */
    method ClickUpdate()
      requires Valid()
      modifies this`opCode, this`nodes, this`lines, this`opIda, this`opIdb, rows.Repr()
      ensures Valid()
      ensures View() == old(View()).(items := ListApp.MarkTenth(old(View()).items))
    {
      hide Inv; hide Shows; hide Agree;
      opCode := 4;
      Stripe();
      opCode := 0;
      assert |ItemsOf(lines)| == |lines|;
    }

    /** Stage a swap of two positions and sweep. */
    method SweepSwap(a: int, b: int)
      requires Sound() && Painted() && a != b && PosPermutation(rows.Abs())
      modifies this`opCode, this`opA, this`opB, this`opIda, this`opIdb, this`nodes, this`lines, rows.Repr()
      ensures Sound() && Painted() && lines == old(lines) && opA == a && opB == b
      ensures rows.Abs() == SwapPos(old(rows.Abs()), a, b, |old(rows.Abs()).rows|)
      ensures Staged(old(rows.Abs()), |old(rows.Abs()).rows|)
    {
      hide Inv; hide Shows; hide Agree; hide SwapPos; hide PosPermutation; hide HandleOf; hide Rows.Abs;
      opCode := 6;
      opA := a;
      opB := b;
      Stripe();
    }

    /** Close the gap behind a removed position. */
    method SweepClosed()
      requires Sound() && Painted()
      modifies this`opCode, this`opIda, this`opIdb, this`nodes, this`lines, rows.Repr()
      ensures Sound() && Painted() && lines == old(lines) && opCode == 0
      ensures rows.Abs() == CloseGap(old(rows.Abs()), opB, |old(rows.Abs()).rows|)
    {
      hide Inv; hide Shows; hide Agree; hide CloseGap; hide PosPermutation; hide HandleOf; hide Rows.Abs;
      opCode := 77;
      Stripe();
      opCode := 0;
    }

    /** Swap rows 1 and 998. */
    method ClickSwap()
      requires Valid()
      modifies this`opCode, this`opA, this`opB, this`opIda, this`opIdb, this`kids, this`nodes, this`lines, rows.Repr()
      ensures Valid()
      ensures View() == if |old(View()).items| > 998
                        then old(View()).(items := ListApp.Exchange(old(View()).items, 1, 998)) else old(View())
    {
      hide Inv; hide Shows; hide Agree; hide SwapPos; hide PosPermutation; hide HandleOf; hide ItemsOf; hide Rows.Abs;
      hide OnlyDanger; hide SwapLines;
      if cntN > 998 {
        SwapKeepsDanger(lines, 1, 998, selCur);
        ghost var s := rows.Abs();
        AgreePermutation(s, lines);
        AgreeSwap(s, lines, 1, 998);
        SwapItems(lines, 1, 998);
        LineOwners(s, lines, 1);
        LineOwners(s, lines, 998);
        SweepSwap(1, 998);
        SwapRows(opIda, opIdb, 1, 998);
        opCode := 0;
      }
    }

    /** Remove the row a click points at; a key of no live row throws before any write. */
    method ClickRemove(key: int) returns (thrown: Option<HandleError>)
      requires Valid()
      modifies this`opCode, this`opB, this`opIda, this`opIdb, this`kids, this`reg, this`nodes, this`lines, this`cntN,
               rows.Repr()
      ensures Valid()
      ensures thrown.Some? <==> FindKey(old(lines), key).None?
      ensures View() == match FindKey(old(lines), key)
                        case Some(i) => old(View()).(items := ListApp.Remove(old(View()).items, i))
                        case None => old(View())
    {
      hide Inv; hide Shows; hide Agree; hide RowOf; hide Resolve; hide FindKey; hide ItemsOf; hide Rows.Abs;
      hide OnlyDanger;
      KeyOwnsLine(rows.Abs(), Shown(), lines, key);
      ResolveFinds(rows.Abs(), key);
      var resolved := rows.ResolveRow(key);
      if resolved.Err? { return Some(resolved.error); }
      RemoveAt(key, resolved.value);
      return None;
    }

    /** The delete arm once the key resolved to row r. */
    method RemoveAt(key: int, r: nat)
      requires Valid() && RowOf(rows.Abs(), key) == Some(r)
      modifies this`opCode, this`opB, this`opIda, this`opIdb, this`kids, this`reg, this`nodes, this`lines, this`cntN,
               rows.Repr()
      ensures Valid()
      ensures var i := old(rows.Abs()).rows[r].pos;
        0 <= i < |old(lines)| && View() == old(View()).(items := ListApp.Remove(old(View()).items, i))
    {
      hide Inv; hide Shows; hide Agree; hide CloseGap; hide RowOf; hide TakeAt; hide RemoveLine; hide ItemsOf;
      hide Rows.Abs;
      hide OnlyDanger;
      ghost var s := rows.Abs();
      AgreeRemove(s, lines, r);
      RemoveItems(lines, s.rows[r].pos);
      var clicked := rows.ReadRow(r);
      opB := clicked.pos;
      var item := Take(key);
      SweepClosed();
    }

    // ---- the click arms ----

    /** The dispatch of one click; the result is what it throws, if it throws. */
    method Click(action: int, key: int, draws: seq<Draw>) returns (thrown: Option<HandleError>)
      requires Valid() && |draws| == ListApp.BuildCount(action)
      modifies Repr()
      ensures Valid()
      ensures View() == ListApp.Apply(old(View()), ListApp.Click(action, FindKey(old(lines), key), MakeLabels(draws)))
      ensures thrown.Some? <==> action == 7 && FindKey(old(lines), key).None?
    {
      hide Inv; hide Shows; hide Agree; hide FindKey; hide MakeLabel; hide ItemsOf; hide Rows.Abs; hide OnlyDanger;
      thrown := None;
      if action == 1 {
        ClearStore();
        Build(draws);
      } else if action == 2 {
        ClearStore();
        Build(draws);
      } else if action == 3 {
        Build(draws);
      } else if action == 4 {
        ClickUpdate();
      } else if action == 5 {
        ClearStore();
      } else if action == 6 {
        ClickSwap();
      } else if action == 7 {
        thrown := ClickRemove(key);
      } else if action == 8 {
        SelectItems(Shown(), lines, key);
        SelectRow(key);
      }
    }

    /** A click of the user on the page as it is now. */
    method Perform(input: Input) returns (thrown: Option<HandleError>)
      requires Valid() && input.WellFormed()
      modifies Repr()
      ensures Valid()
      ensures View() == ListApp.Apply(old(View()), ListApp.Click(input.action, input.row, MakeLabels(input.draws)))
    {
      hide Inv; hide FindKey; hide MakeLabel; hide Rows.Abs; hide OnlyDanger;
      var key := 0;
      if input.row.Some? && input.row.value < |kids| {
        var i := input.row.value;
        assert Registered(Shown(), lines[i], kids[i]);
        key := nodes[kids[i]].key.value;
        KeyAtFinds(Shown(), lines, i);
      } else {
        ZeroOwnsNothing(rows.Abs(), lines);
      }
      thrown := Click(input.action, key, input.draws);
    }

    /**
     * Every run of clicks leaves the page displaying the table the reference
     * application reaches, with the registry's keys exactly the live handles.
     */
    method PerformAll(inputs: seq<Input>)
      requires Valid() && forall i :: 0 <= i < |inputs| ==> inputs[i].WellFormed()
      modifies Repr()
      ensures Valid()
      ensures View() == ListApp.Run(old(View()), Clicks(inputs))
      ensures Displays(Shown(), View().items)
      ensures reg.Keys == LiveHandles(rows.Abs())
      ensures PosPermutation(rows.Abs())
    {
      hide Inv; hide Shows; hide Agree; hide ListApp.Apply; hide Rows.Abs; hide OnlyDanger; hide PosPermutation;
      ghost var m := View();
      ghost var clicks := Clicks(inputs);
      var k := 0;
      while k < |inputs|
        invariant 0 <= k <= |inputs|
        invariant Valid()
        invariant View() == ListApp.Run(m, clicks[..k])
      {
        var thrown := Perform(inputs[k]);
        k := k + 1;
        assert clicks[..k][..k - 1] == clicks[..k - 1] && clicks[..k][k - 1] == inputs[k - 1].AsClick();
      }
      assert clicks[..k] == clicks;
      ShowsDisplays(Shown(), lines);
      RegistryIsLive(rows.Abs(), Shown(), lines);
      AgreePermutation(rows.Abs(), lines);
    }
  }
}
