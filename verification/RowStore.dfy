/**
 * The generational row store as a value: what the arrays of `__koru_store_rows`
 * mean, what each handler makes of them, and what handles are worth.
 */
module RowStore {
  import opened Wrappers
  import opened Handles

  const CAPACITY: nat := 16384
  const BRAND: nat := 1
  const LABEL_WIDTH: nat := 48

  /** One row: the three columns read at one dense index. */
  datatype Row = Row(id: int, pos: int, text: string)

  /**
   * The dense rows with the slot of each, the slot table (dense index and
   * generation of every slot), the free list as a stack and the slots ever used.
   */
  datatype Store = Store(
    rows: seq<Row>,
    rowSlot: seq<nat>,
    slotRow: seq<int>,
    slotGen: seq<nat>,
    free: seq<nat>,
    next: nat)

  /** What a resolve that throws reports. */
  datatype HandleError = Stale | NotIssued

  function Truncate(text: string): string {
    if |text| <= LABEL_WIDTH then text else text[..LABEL_WIDTH]
  }

  // ---- the invariant every handler keeps ----

  ghost predicate Shape(s: Store) {
    && |s.rows| == |s.rowSlot| <= CAPACITY
    && |s.slotRow| == |s.slotGen| == CAPACITY
    && s.next <= CAPACITY
    && (forall i :: 0 <= i < CAPACITY ==> s.slotGen[i] < GENERATION_RANGE)
  }

  /** Every dense row has a slot of its own, which points back at it. */
  ghost predicate RowsLinked(s: Store)
    requires Shape(s)
  {
    forall r :: 0 <= r < |s.rows| ==> s.rowSlot[r] < s.next && s.slotRow[s.rowSlot[r]] == r
  }

  /** The free stack holds distinct used slots that address no row. */
  ghost predicate FreeLinked(s: Store)
    requires Shape(s)
  {
    && (forall i :: 0 <= i < |s.free| ==> s.free[i] < s.next && s.slotRow[s.free[i]] == -1)
    && (forall i, j :: 0 <= i < j < |s.free| ==> s.free[i] != s.free[j])
  }

  /** A used slot addresses the row that owns it, or it is on the free stack. */
  ghost predicate SlotsPartitioned(s: Store)
    requires Shape(s)
  {
    forall k :: 0 <= k < s.next ==>
      if s.slotRow[k] == -1 then k in s.free
      else 0 <= s.slotRow[k] < |s.rows| && s.rowSlot[s.slotRow[k]] == k
  }

  ghost predicate Inv(s: Store) {
    Shape(s) && RowsLinked(s) && FreeLinked(s) && SlotsPartitioned(s)
    && s.next == |s.rows| + |s.free|
  }

  // ---- handles ----

  function HandleOf(s: Store, r: nat): int
    requires r < |s.rowSlot| && s.rowSlot[r] < |s.slotGen|
  {
    Encode(Parts(s.rowSlot[r], BRAND, s.slotGen[s.rowSlot[r]]))
  }

  /** `__koru_row_of`: the dense index a handle addresses now, if any. */
  function RowOf(s: Store, h: int): (r: Option<nat>)
    requires |s.slotRow| == |s.slotGen| && s.next <= |s.slotRow|
    ensures r.Some? ==> r.value < |s.rows|
  {
    if h < 0 then None else
    var p := Decode(h);
    if p.brand != BRAND then None
    else if p.slot >= s.next then None
    else if p.gen != s.slotGen[p.slot] then None
    else
      var r := s.slotRow[p.slot];
      if r < 0 || r >= |s.rows| then None else Some(r)
  }

  /** `__koru_resolve`: as RowOf, but absence throws one of two errors. */
  function Resolve(s: Store, h: int): Result<nat, HandleError>
    requires |s.slotRow| == |s.slotGen| && s.next <= |s.slotRow|
  {
    match RowOf(s, h)
    case Some(r) => Ok(r)
    case None =>
      if h >= 0 && Decode(h).brand == BRAND && Decode(h).slot < s.next && Decode(h).gen != s.slotGen[Decode(h).slot]
      then Err(Stale) else Err(NotIssued)
  }

  /** A handle resolves exactly when it addresses a row, and to that row. */
  lemma ResolveFinds(s: Store, h: int)
    requires Inv(s)
    ensures Resolve(s, h).Ok? <==> RowOf(s, h).Some?
    ensures Resolve(s, h).Ok? ==> RowOf(s, h) == Some(Resolve(s, h).value)
  {
    hide RowOf;
  }

  /**
   * Which error: stale for a number that names a slot in use of this store at another
   * generation, and not a handle of this store for any other that resolves to no row.
   */
  lemma WhichError(s: Store, h: int)
    requires Inv(s) && RowOf(s, h).None?
    ensures Resolve(s, h) == Err(Stale)
       <==> h >= 0 && h / 16777216 % 256 == 1
            && h % 16777216 < s.next && s.slotGen[h % 16777216] != h / 4294967296
    ensures Resolve(s, h) == Err(Stale) || Resolve(s, h) == Err(NotIssued)
  {
    if h >= 0 {
      DecodedAs(h);
    }
  }

  lemma RowOfHandleOf(s: Store, r: nat)
    requires Inv(s) && r < |s.rows|
    ensures RowOf(s, HandleOf(s, r)) == Some(r)
    ensures 0 <= HandleOf(s, r) <= MAX_SAFE_INTEGER
  {
    DecodeEncode(Parts(s.rowSlot[r], BRAND, s.slotGen[s.rowSlot[r]]));
  }

  lemma HandleOfRowOf(s: Store, h: int)
    requires Inv(s) && RowOf(s, h).Some?
    ensures HandleOf(s, RowOf(s, h).value) == h
  {
    EncodeDecode(h);
  }

  // ---- the abstraction: a finite map from handles to rows ----

  ghost function LiveHandles(s: Store): set<int>
    requires Inv(s)
  {
    set r | 0 <= r < |s.rows| :: HandleOf(s, r)
  }

  lemma LiveIffResolves(s: Store, h: int)
    requires Inv(s)
    ensures h in LiveHandles(s) <==> RowOf(s, h).Some?
    ensures h in LiveHandles(s) <==> Resolve(s, h).Ok?
  {
    if h in LiveHandles(s) {
      var r :| 0 <= r < |s.rows| && HandleOf(s, r) == h;
      RowOfHandleOf(s, r);
    }
    if RowOf(s, h).Some? {
      HandleOfRowOf(s, h);
    }
  }

  ghost function Contents(s: Store): (m: map<int, Row>)
    requires Inv(s)
    ensures m.Keys == LiveHandles(s)
  {
    map h | h in LiveHandles(s) :: (LiveIffResolves(s, h); s.rows[RowOf(s, h).value])
  }

  /** What it takes for a map to be the contents of a store. */
  lemma ContentsIs(s: Store, m: map<int, Row>)
    requires Inv(s)
    requires forall r :: 0 <= r < |s.rows| ==> HandleOf(s, r) in m && m[HandleOf(s, r)] == s.rows[r]
    requires forall h :: h in m ==> RowOf(s, h).Some?
    ensures Contents(s) == m
  {
    forall h | h in LiveHandles(s) || h in m
      ensures h in LiveHandles(s) && h in m && Contents(s)[h] == m[h]
    {
      LiveIffResolves(s, h);
      HandleOfRowOf(s, h);
    }
  }

  // ---- insert ----

  /** The slot the next insert takes: top of the free stack, else a new one. */
  function NextSlot(s: Store): nat {
    if |s.free| > 0 then s.free[|s.free| - 1] else s.next
  }

  /** `__store_insertf_rows` below capacity, without its interceptors. */
  function Insert(s: Store, id: int, pos: int, text: string): Store
    requires Inv(s) && |s.rows| < CAPACITY
  {
    var slot := NextSlot(s);
    s.(rows := s.rows + [Row(id, pos, Truncate(text))],
       rowSlot := s.rowSlot + [slot],
       slotRow := s.slotRow[slot := |s.rows|],
       free := if |s.free| > 0 then s.free[..|s.free| - 1] else s.free,
       next := if |s.free| > 0 then s.next else s.next + 1)
  }

  lemma NextSlotBounds(s: Store)
    requires Inv(s) && |s.rows| < CAPACITY
    ensures NextSlot(s) < CAPACITY && (|s.free| == 0 ==> s.next < CAPACITY)
    ensures |s.free| > 0 ==> NextSlot(s) == s.free[|s.free| - 1]
  {
  }

  lemma RowSlotBounds(s: Store)
    requires Inv(s)
    ensures |s.rows| + |s.free| <= CAPACITY
    ensures forall r :: 0 <= r < |s.rows| ==> s.rowSlot[r] < CAPACITY
  {
  }

  lemma InsertInv(s: Store, id: int, pos: int, text: string)
    requires Inv(s) && |s.rows| < CAPACITY
    ensures Inv(Insert(s, id, pos, text))
  {
    var t := Insert(s, id, pos, text);
    var slot := NextSlot(s);
    assert forall r :: 0 <= r < |s.rows| ==> s.rowSlot[r] != slot;
    forall k | 0 <= k < t.next && t.slotRow[k] == -1
      ensures k in t.free
    {
      assert k != slot && k in s.free;
      var i :| 0 <= i < |s.free| && s.free[i] == k;
      assert i < |t.free| && t.free[i] == k;
    }
  }

  /** Insert adds exactly one row, under a handle nothing live had. */
  lemma InsertRefines(s: Store, id: int, pos: int, text: string)
    requires Inv(s) && |s.rows| < CAPACITY
    ensures var t := Insert(s, id, pos, text);
            Inv(t) &&
            var h := HandleOf(t, |s.rows|);
            h !in Contents(s) && Contents(t) == Contents(s)[h := Row(id, pos, Truncate(text))]
  {
    InsertInv(s, id, pos, text);
    var t := Insert(s, id, pos, text);
    var h := HandleOf(t, |s.rows|);
    RowOfHandleOf(t, |s.rows|);
    if h in Contents(s) {
      LiveIffResolves(s, h);
      HandleOfRowOf(s, h);
      InsertKeepsHandles(s, id, pos, text, RowOf(s, h).value);
      RowOfHandleOf(t, RowOf(s, h).value);
    }
    var m := Contents(s)[h := Row(id, pos, Truncate(text))];
    forall r | 0 <= r < |t.rows|
      ensures HandleOf(t, r) in m && m[HandleOf(t, r)] == t.rows[r]
    {
      if r < |s.rows| {
        InsertKeepsHandles(s, id, pos, text, r);
        RowOfHandleOf(s, r);
      }
    }
    forall k | k in m
      ensures RowOf(t, k).Some?
    {
      if k != h {
        LiveIffResolves(s, k);
        HandleOfRowOf(s, k);
        InsertKeepsHandles(s, id, pos, text, RowOf(s, k).value);
        RowOfHandleOf(t, RowOf(s, k).value);
      }
    }
    ContentsIs(t, m);
  }

  lemma InsertKeepsHandles(s: Store, id: int, pos: int, text: string, r: nat)
    requires Inv(s) && |s.rows| < CAPACITY && r < |s.rows|
    ensures Inv(Insert(s, id, pos, text))
    ensures HandleOf(Insert(s, id, pos, text), r) == HandleOf(s, r)
  {
    InsertInv(s, id, pos, text);
  }

  // ---- take ----

  function Bump(gen: nat): nat {
    (gen + 1) % GENERATION_RANGE
  }

  /** `__store_take_rows` of dense row r: the last row moves into the hole. */
  function TakeAt(s: Store, r: nat): Store
    requires Inv(s) && r < |s.rows|
  {
    var last := |s.rows| - 1;
    var gone := s.rowSlot[r];
    var moved := s.rowSlot[last];
    s.(rows := s.rows[r := s.rows[last]][..last],
       rowSlot := s.rowSlot[r := moved][..last],
       slotRow := s.slotRow[moved := r][gone := -1],
       slotGen := s.slotGen[gone := Bump(s.slotGen[gone])],
       free := s.free + [gone])
  }

  lemma TakeAtInv(s: Store, r: nat)
    requires Inv(s) && r < |s.rows|
    ensures Inv(TakeAt(s, r))
  {
    var t := TakeAt(s, r);
    var last := |s.rows| - 1;
    var gone := s.rowSlot[r];
    assert RowsLinked(t) by {
      forall i | 0 <= i < |t.rows|
        ensures t.rowSlot[i] < t.next && t.slotRow[t.rowSlot[i]] == i
      {
        var j := if i == r then last else i;
        assert t.rowSlot[i] == s.rowSlot[j] && s.slotRow[s.rowSlot[j]] == j;
      }
    }
    assert FreeLinked(t) by {
      assert s.slotRow[gone] == r;
      assert s.slotRow[s.rowSlot[last]] == last;
    }
    forall k | 0 <= k < t.next
      ensures if t.slotRow[k] == -1 then k in t.free
              else 0 <= t.slotRow[k] < |t.rows| && t.rowSlot[t.slotRow[k]] == k
    {
      if k == gone {
        assert t.free[|s.free|] == k;
      } else if s.slotRow[k] == -1 {
        assert k in s.free;
      }
    }
  }

  /** Where the surviving dense row i of the result stood before the take. */
  function TakeSource(s: Store, r: nat, i: nat): nat
    requires r < |s.rows|
  {
    if i == r then |s.rows| - 1 else i
  }

  lemma TakeKeepsHandles(s: Store, r: nat, i: nat)
    requires Inv(s) && r < |s.rows| && i < |s.rows| - 1
    ensures Inv(TakeAt(s, r))
    ensures HandleOf(TakeAt(s, r), i) == HandleOf(s, TakeSource(s, r, i))
    ensures TakeAt(s, r).rows[i] == s.rows[TakeSource(s, r, i)]
  {
    TakeAtInv(s, r);
    var j := TakeSource(s, r, i);
    assert s.slotRow[s.rowSlot[j]] == j && s.slotRow[s.rowSlot[r]] == r;
  }

  /** A handle other than the taken one resolves to the same row afterwards. */
  lemma TakeKeepsOthers(s: Store, r: nat, h: int)
    requires Inv(s) && r < |s.rows| && RowOf(s, h).Some? && h != HandleOf(s, r)
    ensures Inv(TakeAt(s, r))
    ensures RowOf(TakeAt(s, r), h).Some?
    ensures TakeAt(s, r).rows[RowOf(TakeAt(s, r), h).value] == s.rows[RowOf(s, h).value]
  {
    HandleOfRowOf(s, h);
    var j := RowOf(s, h).value;
    var i := if j == |s.rows| - 1 then r else j;
    TakeKeepsHandles(s, r, i);
    RowOfHandleOf(TakeAt(s, r), i);
  }

  /** The taken handle resolves to nothing, and nothing else appears. */
  lemma TakeDropsHandle(s: Store, r: nat, i: nat)
    requires Inv(s) && r < |s.rows| && i < |s.rows| - 1
    ensures Inv(TakeAt(s, r))
    ensures HandleOf(TakeAt(s, r), i) != HandleOf(s, r)
    ensures HandleOf(TakeAt(s, r), i) in LiveHandles(s)
  {
    TakeKeepsHandles(s, r, i);
    RowOfHandleOf(s, TakeSource(s, r, i));
    RowOfHandleOf(s, r);
  }

  /** Take removes exactly the addressed row; every other handle keeps its row. */
  lemma TakeRefines(s: Store, r: nat)
    requires Inv(s) && r < |s.rows|
    ensures Inv(TakeAt(s, r))
    ensures HandleOf(s, r) in Contents(s) && Contents(s)[HandleOf(s, r)] == s.rows[r]
    ensures Contents(TakeAt(s, r)) == Contents(s) - {HandleOf(s, r)}
  {
    TakeAtInv(s, r);
    RowOfHandleOf(s, r);
    var t := TakeAt(s, r);
    var m := Contents(s) - {HandleOf(s, r)};
    forall h | h in m
      ensures h in LiveHandles(t) && Contents(t)[h] == m[h]
    {
      LiveIffResolves(s, h);
      TakeKeepsOthers(s, r, h);
      LiveIffResolves(t, h);
    }
    forall h | h in LiveHandles(t)
      ensures h in m
    {
      var i :| 0 <= i < |t.rows| && HandleOf(t, i) == h;
      TakeDropsHandle(s, r, i);
    }
  }

  // ---- clear ----

  /** `__store_clear_rows`: every used slot is bumped, all of them become unused. */
  function Clear(s: Store): Store
    requires s.next <= |s.slotGen|
  {
    s.(rows := [], rowSlot := [], free := [], next := 0,
       slotGen := BumpUpTo(s.slotGen, s.next))
  }

  function BumpUpTo(gens: seq<nat>, n: nat): seq<nat>
    requires n <= |gens|
  {
    seq(|gens|, i requires 0 <= i < |gens| => if i < n then Bump(gens[i]) else gens[i])
  }

  lemma ClearRefines(s: Store)
    requires Inv(s)
    ensures Inv(Clear(s))
    ensures Contents(Clear(s)) == map[]
    ensures forall k :: 0 <= k < CAPACITY ==>
      Clear(s).slotGen[k] == if k < s.next then Bump(s.slotGen[k]) else s.slotGen[k]
  {
    assert LiveHandles(Clear(s)) == {};
  }

  // ---- column writes ----

  function WritePos(s: Store, r: nat, pos: int): Store
    requires r < |s.rows|
  {
    s.(rows := s.rows[r := s.rows[r].(pos := pos)])
  }

  function WriteText(s: Store, r: nat, text: string): Store
    requires r < |s.rows|
  {
    s.(rows := s.rows[r := s.rows[r].(text := Truncate(text))])
  }

  function WriteId(s: Store, r: nat, id: int): Store
    requires r < |s.rows|
  {
    s.(rows := s.rows[r := s.rows[r].(id := id)])
  }
}
