/** `__koru_store_rows`: the struct of arrays, updated in place, refining RowStore. */
module RowArrays {
  import opened Wrappers
  import opened Handles
  import opened RowStore

  /** The contents of the arrays, garbage included. */
  datatype Columns = Columns(id: seq<int>, pos: seq<int>, text: seq<string>, slotRow: seq<int>, slotGen: seq<nat>,
                             rowSlot: seq<nat>, free: seq<nat>, len: nat, freeLen: nat, next: nat)

  predicate Sized(c: Columns) {
    && |c.id| == |c.pos| == |c.text| == CAPACITY
    && |c.slotRow| == |c.slotGen| == |c.rowSlot| == |c.free| == CAPACITY
    && c.len <= CAPACITY && c.freeLen <= CAPACITY
  }

  /** The store the columns hold; what lies beyond the counters is garbage. */
  function StoreOf(c: Columns): Store
    requires Sized(c)
  {
    Store(seq(c.len, r requires 0 <= r < c.len => Row(c.id[r], c.pos[r], c.text[r])),
          c.rowSlot[..c.len], c.slotRow, c.slotGen, c.free[..c.freeLen], c.next)
  }

  function Inserted(c: Columns, id: int, pos: int, text: string): Columns
    requires Sized(c) && c.len < CAPACITY && (c.freeLen == 0 ==> c.next < CAPACITY)
    requires c.freeLen > 0 ==> c.free[c.freeLen - 1] < CAPACITY
  {
    var slot := if c.freeLen > 0 then c.free[c.freeLen - 1] else c.next;
    c.(id := c.id[c.len := id], pos := c.pos[c.len := pos], text := c.text[c.len := Truncate(text)],
       slotRow := c.slotRow[slot := c.len], rowSlot := c.rowSlot[c.len := slot], len := c.len + 1,
       freeLen := if c.freeLen > 0 then c.freeLen - 1 else 0, next := if c.freeLen > 0 then c.next else c.next + 1)
  }

  lemma InsertedIsInsert(c: Columns, id: int, pos: int, text: string)
    requires Sized(c) && Inv(StoreOf(c)) && c.len < CAPACITY
    ensures c.freeLen == 0 ==> c.next < CAPACITY
    ensures c.freeLen > 0 ==> c.free[c.freeLen - 1] < CAPACITY
    ensures Sized(Inserted(c, id, pos, text))
      && StoreOf(Inserted(c, id, pos, text)) == Insert(StoreOf(c), id, pos, text)
  {
    hide RowsLinked; hide FreeLinked; hide SlotsPartitioned; hide Truncate;
    NextSlotBounds(StoreOf(c));
    var s, t := Insert(StoreOf(c), id, pos, text), StoreOf(Inserted(c, id, pos, text));
    assert s.rows == t.rows;
    assert s.rowSlot == t.rowSlot;
    assert s.free == t.free;
  }

  lemma RowsLength(c: Columns)
    requires Sized(c)
    ensures |StoreOf(c).rows| == c.len
  {
  }

  /** The last row's columns over those of row r. */
  function Moved(c: Columns, r: nat): Columns
    requires Sized(c) && r < c.len && c.rowSlot[c.len - 1] < CAPACITY
  {
    var last := c.len - 1;
    c.(id := c.id[r := c.id[last]], pos := c.pos[r := c.pos[last]], text := c.text[r := c.text[last]],
       slotRow := c.slotRow[c.rowSlot[last] := r], rowSlot := c.rowSlot[r := c.rowSlot[last]])
  }

  /** The last row dropped and a slot given back, at its next generation. */
  function Retired(c: Columns, slot: nat): Columns
    requires Sized(c) && 0 < c.len && slot < CAPACITY && c.freeLen < CAPACITY
  {
    c.(len := c.len - 1, slotRow := c.slotRow[slot := -1], slotGen := c.slotGen[slot := Bump(c.slotGen[slot])],
       free := c.free[c.freeLen := slot], freeLen := c.freeLen + 1)
  }

  function Removed(c: Columns, r: nat): Columns
    requires Sized(c) && r < c.len && c.freeLen < CAPACITY && c.rowSlot[r] < CAPACITY && c.rowSlot[c.len - 1] < CAPACITY
  {
    Retired(if r == c.len - 1 then c else Moved(c, r), c.rowSlot[r])
  }

  lemma MovedSized(c: Columns, r: nat)
    requires Sized(c) && r < c.len && c.rowSlot[c.len - 1] < CAPACITY
    ensures Sized(Moved(c, r)) && Moved(c, r).len == c.len && Moved(c, r).freeLen == c.freeLen
  {
  }

  lemma RemovedIsTake(c: Columns, r: nat)
    requires Sized(c) && Inv(StoreOf(c)) && r < c.len
    ensures c.freeLen < CAPACITY && c.rowSlot[r] < CAPACITY && c.rowSlot[c.len - 1] < CAPACITY
    ensures Sized(Removed(c, r)) && StoreOf(Removed(c, r)) == TakeAt(StoreOf(c), r)
  {
    hide RowsLinked; hide FreeLinked; hide SlotsPartitioned; hide Bump;
    RowSlotBounds(StoreOf(c));
    var u := StoreOf(c);
    assert u.rowSlot[r] == c.rowSlot[r] && u.rowSlot[c.len - 1] == c.rowSlot[c.len - 1];
    var s, t := TakeAt(u, r), StoreOf(Removed(c, r));
    if r == c.len - 1 {
      assert c.slotRow[c.rowSlot[r] := r][c.rowSlot[r] := -1] == c.slotRow[c.rowSlot[r] := -1];
    }
    assert s.slotRow == t.slotRow;
    assert s.rows == t.rows;
    assert s.rowSlot == t.rowSlot;
    assert s.free == t.free;
  }

  class Rows {
    const id: array<int>
    const pos: array<int>
    const text: array<string>
    const slotRow: array<int>
    const slotGen: array<nat>
    const rowSlot: array<nat>
    const free: array<nat>
    var len: nat
    var freeLen: nat
    var next: nat

    ghost function Repr(): set<object> {
      {this, id, pos, text, slotRow, slotGen, rowSlot, free}
    }

    ghost predicate Allocated()
      reads this
    {
      && id.Length == pos.Length == text.Length == CAPACITY
      && slotRow.Length == slotGen.Length == rowSlot.Length == free.Length == CAPACITY
      && id != pos && id != slotRow && pos != slotRow
      && slotGen != rowSlot && slotGen != free && rowSlot != free
      && len <= CAPACITY && freeLen <= CAPACITY
    }

    ghost function Cols(): Columns
      reads this, Repr()
    {
      Columns(id[..], pos[..], text[..], slotRow[..], slotGen[..], rowSlot[..], free[..], len, freeLen, next)
    }

    /** The store these arrays hold. */
    ghost function Abs(): Store
      reads this, Repr()
      requires Allocated()
    {
      StoreOf(Cols())
    }

    ghost predicate Valid()
      reads this, Repr()
    {
      Allocated() && Inv(Abs())
    }

    constructor ()
      ensures Valid() && fresh(Repr())
      ensures Abs() == Store([], [], seq(CAPACITY, _ => 0), seq(CAPACITY, _ => 0), [], 0)
    {
      id := new int[CAPACITY](_ => 0);
      pos := new int[CAPACITY](_ => 0);
      text := new string[CAPACITY](_ => "");
      slotRow := new int[CAPACITY](_ => 0);
      slotGen := new nat[CAPACITY](_ => 0);
      rowSlot := new nat[CAPACITY](_ => 0);
      free := new nat[CAPACITY](_ => 0);
      len, freeLen, next := 0, 0, 0;
      new;
      assert slotRow[..] == seq(CAPACITY, _ => 0);
      assert slotGen[..] == seq(CAPACITY, _ => 0);
    }

    method FindRow(h: int) returns (r: Option<nat>)
      requires Valid()
      ensures r == RowOf(Abs(), h)
    {
      if h < 0 { return None; }
      var gen := h / LOW_RANGE;
      var low := h - gen * LOW_RANGE;
      if low / SLOT_RANGE != BRAND { return None; }
      var slot := low % SLOT_RANGE;
      if slot >= next { return None; }
      if gen != slotGen[slot] { return None; }
      var row := slotRow[slot];
      if row < 0 || row >= len { return None; }
      return Some(row);
    }

    method ResolveRow(h: int) returns (r: Result<nat, HandleError>)
      requires Valid()
      ensures r == Resolve(Abs(), h)
    {
      var found := FindRow(h);
      if found.Some? { return Ok(found.value); }
      if h >= 0 {
        var gen := h / LOW_RANGE;
        var low := h - gen * LOW_RANGE;
        var slot := low % SLOT_RANGE;
        if low / SLOT_RANGE == BRAND && slot < next && gen != slotGen[slot] {
          return Err(Stale);
        }
      }
      return Err(NotIssued);
    }

    method Handle(r: nat) returns (h: int)
      requires Valid() && r < len
      ensures h == HandleOf(Abs(), r)
    {
      var slot := rowSlot[r];
      h := slot + BRAND * SLOT_RANGE + slotGen[slot] * LOW_RANGE;
    }

    method ReadRow(r: nat) returns (row: Row)
      requires Valid() && r < |Abs().rows|
      ensures row == Abs().rows[r]
    {
      row := Row(id[r], pos[r], text[r]);
    }

    /** The slot freed last, or one never used. */
    method TakeSlot() returns (slot: nat)
      requires Allocated() && (freeLen == 0 ==> next < CAPACITY)
      modifies this`freeLen, this`next
      ensures slot == if old(freeLen) > 0 then free[old(freeLen) - 1] else old(next)
      ensures freeLen == if old(freeLen) > 0 then old(freeLen) - 1 else 0
      ensures next == if old(freeLen) > 0 then old(next) else old(next) + 1
    {
      if freeLen > 0 {
        freeLen := freeLen - 1;
        slot := free[freeLen];
      } else {
        slot := next;
        next := next + 1;
      }
    }

    method InsertRow(id0: int, pos0: int, text0: string) returns (row: Option<nat>)
      requires Valid()
      modifies Repr()
      ensures Valid()
      ensures row == if old(len) < CAPACITY then Some(old(len)) else None
      ensures Abs() == if old(len) < CAPACITY then Insert(old(Abs()), id0, pos0, text0) else old(Abs())
    {
      hide Inv; hide StoreOf; hide Insert; hide Truncate;
      if len >= CAPACITY { return None; }
      ghost var c := Cols();
      InsertedIsInsert(c, id0, pos0, text0);
      RowsLength(c);
      InsertInv(Abs(), id0, pos0, text0);
      var r := len;
      var slot := TakeSlot();
      slotRow[slot] := r;
      rowSlot[r] := slot;
      id[r] := id0;
      pos[r] := pos0;
      text[r] := Truncate(text0);
      len := len + 1;
      row := Some(r);
      assert Cols() == Inserted(c, id0, pos0, text0);
    }

    /** The last row takes the place of the one that goes. */
    method MoveRow(r: nat)
      requires Allocated() && r < len && rowSlot[len - 1] < CAPACITY
      modifies id, pos, text, slotRow, rowSlot
      ensures Cols() == Moved(old(Cols()), r)
    {
      var last := len - 1;
      id[r] := id[last];
      pos[r] := pos[last];
      text[r] := text[last];
      var moved := rowSlot[last];
      slotRow[moved] := r;
      rowSlot[r] := moved;
    }

    /** The last row dropped and a slot given back. */
    method RetireSlot(gone: nat)
      requires Allocated() && 0 < len && gone < CAPACITY && freeLen < CAPACITY
      modifies this, slotRow, slotGen, free
      ensures Cols() == Retired(old(Cols()), gone)
    {
      slotRow[gone] := -1;
      len := len - 1;
      slotGen[gone] := (slotGen[gone] + 1) % GENERATION_RANGE;
      free[freeLen] := gone;
      freeLen := freeLen + 1;
    }

    /** The compaction half of `__store_take_rows`, after the columns were read. */
    method RemoveRow(r: nat)
      requires Valid() && r < len
      modifies Repr()
      ensures Valid()
      ensures Abs() == TakeAt(old(Abs()), r)
    {
      hide Inv; hide StoreOf; hide TakeAt; hide Retired; hide Moved;
      ghost var c := Cols();
      RemovedIsTake(c, r);
      RowsLength(c);
      TakeAtInv(Abs(), r);
      MovedSized(c, r);
      var gone := rowSlot[r];
      if r != len - 1 {
        MoveRow(r);
      }
      RetireSlot(gone);
      assert Cols() == Removed(c, r);
    }

    method ClearRows()
      requires Valid()
      modifies Repr()
      ensures Valid()
      ensures Abs() == Clear(old(Abs()))
    {
      ghost var s := Abs();
      ClearRefines(s);
      var i := 0;
      while i < next
        invariant 0 <= i <= next == s.next
        invariant slotGen[..] == BumpUpTo(s.slotGen, i)
        invariant slotRow[..] == s.slotRow
      {
        slotGen[i] := (slotGen[i] + 1) % GENERATION_RANGE;
        i := i + 1;
        assert slotGen[..] == BumpUpTo(s.slotGen, i);
      }
      len := 0;
      freeLen := 0;
      next := 0;
      assert Abs() == Clear(s);
    }

    method SetPos(r: nat, v: int)
      requires Valid() && r < len
      modifies Repr()
      ensures Valid()
      ensures Abs() == WritePos(old(Abs()), r, v)
    {
      pos[r] := v;
      assert Abs().rows == WritePos(old(Abs()), r, v).rows;
    }

    method SetText(r: nat, v: string)
      requires Valid() && r < len
      modifies Repr()
      ensures Valid()
      ensures Abs() == WriteText(old(Abs()), r, v)
    {
      text[r] := Truncate(v);
      assert Abs().rows == WriteText(old(Abs()), r, v).rows;
    }
  }
}
