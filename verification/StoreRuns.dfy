/** What a handle is worth over a whole run of store operations. */
module StoreRuns {
  import opened Wrappers
  import opened Handles
  import opened RowStore

  /** One call into the store, whatever its arguments. */
  datatype Act =
    | Add(id: int, pos: int, text: string)
    | Drop(h: int)
    | Wipe
    | SetId(r: nat, id: int)
    | SetPos(r: nat, pos: int)
    | SetText(r: nat, text: string)

  /** An insert into a full store, and a take through a dead handle, change nothing. */
  function Step(s: Store, a: Act): (t: Store)
    requires Inv(s)
    ensures Inv(t)
  {
    match a
    case Add(id, pos, text) => if |s.rows| >= CAPACITY then s
      else (InsertInv(s, id, pos, text); Insert(s, id, pos, text))
    case Drop(h) => if RowOf(s, h).Some? then (TakeAtInv(s, RowOf(s, h).value); TakeAt(s, RowOf(s, h).value)) else s
    case Wipe => ClearRefines(s); Clear(s)
    case SetId(r, id) => if r < |s.rows| then WriteId(s, r, id) else s
    case SetPos(r, pos) => if r < |s.rows| then WritePos(s, r, pos) else s
    case SetText(r, text) => if r < |s.rows| then WriteText(s, r, text) else s
  }

  function Run(s: Store, acts: seq<Act>): (t: Store)
    requires Inv(s)
    ensures Inv(t)
    decreases |acts|
  {
    if acts == [] then s else Run(Step(s, acts[0]), acts[1..])
  }

  // ---- generations ----

  /** How often one operation bumps the generation of slot k. */
  function StepBumps(s: Store, a: Act, k: nat): nat
    requires Inv(s)
  {
    match a
    case Drop(h) => if RowOf(s, h).Some? && s.rowSlot[RowOf(s, h).value] == k then 1 else 0
    case Wipe => if k < s.next then 1 else 0
    case _ => 0
  }

  function Bumps(s: Store, acts: seq<Act>, k: nat): nat
    requires Inv(s)
    decreases |acts|
  {
    if acts == [] then 0
    else StepBumps(s, acts[0], k) + Bumps(Step(s, acts[0]), acts[1..], k)
  }

  /** A generation after n bumps. */
  function Bumped(gen: nat, n: nat): nat
    decreases n
  {
    if n == 0 then gen else Bumped(Bump(gen), n - 1)
  }

  lemma StepGeneration(s: Store, a: Act, k: nat)
    requires Inv(s) && k < CAPACITY
    ensures StepBumps(s, a, k) == 0 ==> Step(s, a).slotGen[k] == s.slotGen[k]
    ensures StepBumps(s, a, k) != 0 ==> StepBumps(s, a, k) == 1 && Step(s, a).slotGen[k] == Bump(s.slotGen[k])
  {
  }

  lemma {:induction false} RunGeneration(s: Store, acts: seq<Act>, k: nat)
    requires Inv(s) && k < CAPACITY
    ensures Run(s, acts).slotGen[k] == Bumped(s.slotGen[k], Bumps(s, acts, k))
    decreases |acts|
  {
    if acts != [] {
      StepGeneration(s, acts[0], k);
      RunGeneration(Step(s, acts[0]), acts[1..], k);
    }
  }

  lemma {:induction false} BumpedIsModular(gen: nat, n: nat)
    requires gen < GENERATION_RANGE
    ensures Bumped(gen, n) == (gen + n) % GENERATION_RANGE
    decreases n
  {
    if n > 0 {
      BumpedIsModular(Bump(gen), n - 1);
      if gen + 1 == GENERATION_RANGE {
        assert (n - 1 + GENERATION_RANGE) % GENERATION_RANGE == (n - 1) % GENERATION_RANGE;
      } else {
        assert Bump(gen) == gen + 1;
      }
    }
  }

  // ---- lifetime of a handle ----

  predicate SlotLive(s: Store, k: nat)
    requires |s.slotRow| == CAPACITY
  {
    k < s.next <= CAPACITY && s.slotRow[k] >= 0
  }

  lemma ResolvesIff(s: Store, p: Parts)
    requires Inv(s) && p.InRange() && p.brand == BRAND && p.slot < CAPACITY
    ensures RowOf(s, Encode(p)).Some? <==> SlotLive(s, p.slot) && s.slotGen[p.slot] == p.gen
  {
    DecodeEncode(p);
  }

  /** What a live handle decodes to: a slot in use, at its current generation. */
  lemma LiveParts(s: Store, h: int)
    requires Inv(s) && RowOf(s, h).Some?
    ensures h >= 0 && Decode(h).InRange() && Decode(h).brand == BRAND && Decode(h).slot < s.next
    ensures s.slotGen[Decode(h).slot] == Decode(h).gen && Encode(Decode(h)) == h
    ensures s.rowSlot[RowOf(s, h).value] == Decode(h).slot
  {
    EncodeDecode(h);
  }

  /**
   * Exactly when a handle that is live now resolves after a run: when its slot
   * holds a row and was bumped a whole number of generation ranges.
   */
  lemma HandleLifetime(s: Store, h: int, acts: seq<Act>)
    requires Inv(s) && RowOf(s, h).Some?
    ensures var t := Run(s, acts);
            var k := Decode(h).slot;
            (RowOf(t, h).Some? <==> SlotLive(t, k) && Bumps(s, acts, k) % GENERATION_RANGE == 0)
  {
    LiveParts(s, h);
    RunGeneration(s, acts, Decode(h).slot);
    ResolvesIff(Run(s, acts), Decode(h));
    BumpedBackIff(Decode(h).gen, Bumps(s, acts, Decode(h).slot));
  }

  lemma BumpedBackIff(gen: nat, n: nat)
    requires gen < GENERATION_RANGE
    ensures Bumped(gen, n) == gen <==> n % GENERATION_RANGE == 0
  {
    BumpedIsModular(gen, n);
    WholeRanges(gen + n % GENERATION_RANGE, n / GENERATION_RANGE);
  }

  lemma {:induction false} WholeRanges(a: nat, q: nat)
    ensures (a + q * GENERATION_RANGE) % GENERATION_RANGE == a % GENERATION_RANGE
  {
    if q > 0 {
      WholeRanges(a, q - 1);
    }
  }

  /**
   * Stale-handle safety: after the operation that removed its row, a handle
   * resolves to nothing until its slot was bumped the full range, whatever runs.
   */
  lemma StaleStaysDead(s: Store, h: int, removal: Act, acts: seq<Act>)
    requires Inv(s) && RowOf(s, h).Some?
    requires StepBumps(s, removal, Decode(h).slot) > 0
    requires Bumps(s, [removal] + acts, Decode(h).slot) < GENERATION_RANGE
    ensures var t := Run(s, [removal] + acts);
            RowOf(t, h) == None && Resolve(t, h).Err?
  {
    hide Inv; hide Run; hide RowOf; hide StepBumps; hide Step; hide Resolve;
    var run, k := [removal] + acts, Decode(h).slot;
    HandleLifetime(s, h, run);
    FirstBumps(s, removal, acts, k);
    NotAMultiple(Bumps(s, run, k));
    NoRowIsError(Run(s, run), h);
  }

  lemma FirstBumps(s: Store, a: Act, acts: seq<Act>, k: nat)
    requires Inv(s)
    ensures Bumps(s, [a] + acts, k) >= StepBumps(s, a, k)
  {
    hide Inv; hide StepBumps; hide Step;
    assert ([a] + acts)[1..] == acts;
  }

  lemma NotAMultiple(n: nat)
    ensures 0 < n < GENERATION_RANGE ==> n % GENERATION_RANGE != 0
  {
  }

  lemma NoRowIsError(s: Store, h: int)
    requires Inv(s)
    ensures RowOf(s, h) == None ==> Resolve(s, h).Err?
  {
    hide RowOf;
  }

  /** The removals meant above: a take through the handle itself, and a clear. */
  lemma RemovalsBump(s: Store, h: int)
    requires Inv(s) && RowOf(s, h).Some?
    ensures StepBumps(s, Drop(h), Decode(h).slot) == 1
    ensures StepBumps(s, Wipe, Decode(h).slot) == 1
    ensures forall k :: k != Decode(h).slot ==> StepBumps(s, Drop(h), k) == 0
  {
    LiveParts(s, h);
  }

  /**
   * What a removed handle is reported as: stale once its own row was taken, and no
   * handle of this store at all once everything was cleared.
   */
  lemma RemovalReported(s: Store, h: int)
    requires Inv(s) && RowOf(s, h).Some?
    ensures Resolve(Step(s, Drop(h)), h) == Err(Stale)
    ensures Resolve(Step(s, Wipe), h) == Err(NotIssued)
  {
    hide Inv;
    LiveParts(s, h);
    TakenSlot(s, h);
  }

  lemma TakenSlot(s: Store, h: int)
    requires Inv(s) && RowOf(s, h).Some?
    ensures var t, k := Step(s, Drop(h)), Decode(h).slot; t.next == s.next && t.slotGen[k] != s.slotGen[k]
  {
    LiveParts(s, h);
  }

  /** What one operation writes into the columns of the row a handle addresses. */
  function RowStepped(s: Store, h: int, a: Act, row: Row): Row
    requires Inv(s)
  {
    match a
    case SetId(r, id) => if RowOf(s, h) == Some(r) then row.(id := id) else row
    case SetPos(r, pos) => if RowOf(s, h) == Some(r) then row.(pos := pos) else row
    case SetText(r, text) => if RowOf(s, h) == Some(r) then row.(text := Truncate(text)) else row
    case _ => row
  }

  /** The columns of a row after everything a run writes into them, wherever the row has moved by then. */
  function RowWritten(s: Store, h: int, acts: seq<Act>, row: Row): Row
    requires Inv(s)
    decreases |acts|
  {
    if acts == [] then row else RowWritten(Step(s, acts[0]), h, acts[1..], RowStepped(s, h, acts[0], row))
  }

  /** Until its slot is bumped a handle keeps resolving to the row it was issued for, with what was written there. */
  lemma {:induction false} LiveStaysLive(s: Store, h: int, acts: seq<Act>)
    requires Inv(s) && RowOf(s, h).Some?
    requires Bumps(s, acts, Decode(h).slot) == 0
    ensures var t := Run(s, acts);
            RowOf(t, h).Some? &&
            t.rows[RowOf(t, h).value] == RowWritten(s, h, acts, s.rows[RowOf(s, h).value])
    decreases |acts|
  {
    hide RowOf; hide Step; hide RowStepped; hide StepBumps; hide Inv;
    if acts != [] {
      var t := Step(s, acts[0]);
      LiveOneStep(s, h, acts[0]);
      LiveStaysLive(t, h, acts[1..]);
    }
  }

  lemma LiveOneStep(s: Store, h: int, a: Act)
    requires Inv(s) && RowOf(s, h).Some? && StepBumps(s, a, Decode(h).slot) == 0
    ensures Inv(Step(s, a)) && RowOf(Step(s, a), h).Some?
    ensures Step(s, a).rows[RowOf(Step(s, a), h).value] == RowStepped(s, h, a, s.rows[RowOf(s, h).value])
  {
    LiveParts(s, h);
    match a
    case Add(id, pos, text) =>
      if |s.rows| < CAPACITY {
        HandleOfRowOf(s, h);
        InsertKeepsHandles(s, id, pos, text, RowOf(s, h).value);
        RowOfHandleOf(Step(s, a), RowOf(s, h).value);
      }
    case Drop(k) =>
      if RowOf(s, k).Some? {
        HandleOfRowOf(s, k);
        TakeKeepsOthers(s, RowOf(s, k).value, h);
      }
    case Wipe =>
    case SetId(_, _) =>
    case SetPos(_, _) =>
    case SetText(_, _) =>
  }

  // ---- the bound is tight ----

  /** n rounds of insert and take through one slot at generation g, then an insert. */
  function Churn(k: nat, g: nat, n: nat): seq<Act>
    requires k < CAPACITY && g < GENERATION_RANGE
    decreases n
  {
    if n == 0 then [Add(0, 0, "")]
    else [Add(0, 0, ""), Drop(Encode(Parts(k, BRAND, g)))] + Churn(k, Bump(g), n - 1)
  }

  lemma RunTwo(s: Store, a: Act, b: Act, rest: seq<Act>, k: nat)
    requires Inv(s)
    ensures Run(s, [a, b] + rest) == Run(Step(Step(s, a), b), rest)
    ensures Bumps(s, [a, b] + rest, k)
         == StepBumps(s, a, k) + StepBumps(Step(s, a), b, k) + Bumps(Step(Step(s, a), b), rest, k)
  {
    assert ([a, b] + rest)[1..] == [b] + rest;
    assert ([b] + rest)[1..] == rest;
  }

  ghost predicate OnTop(s: Store, k: nat) {
    |s.rows| < CAPACITY && |s.free| > 0 && s.free[|s.free| - 1] == k
  }

  lemma ChurnInsert(s: Store, k: nat)
    requires Inv(s) && OnTop(s, k)
    ensures var t := Step(s, Add(0, 0, ""));
            RowOf(t, Encode(Parts(k, BRAND, s.slotGen[k]))) == Some(|s.rows|) &&
            t.slotGen == s.slotGen && |t.rows| == |s.rows| + 1 && t.rowSlot[|s.rows|] == k &&
            t.free == s.free[..|s.free| - 1]
  {
    RowOfHandleOf(Step(s, Add(0, 0, "")), |s.rows|);
  }

  lemma ChurnRound(s: Store, k: nat)
    requires Inv(s) && OnTop(s, k)
    ensures var t := Step(s, Add(0, 0, ""));
            var drop := Drop(Encode(Parts(k, BRAND, s.slotGen[k])));
            OnTop(Step(t, drop), k) && Step(t, drop).slotGen[k] == Bump(s.slotGen[k]) &&
            StepBumps(t, drop, k) == 1
  {
    ChurnInsert(s, k);
  }

  lemma ChurnLast(s: Store, k: nat)
    requires Inv(s) && OnTop(s, k) && k < CAPACITY
    ensures SlotLive(Run(s, [Add(0, 0, "")]), k)
    ensures Bumps(s, [Add(0, 0, "")], k) == 0
  {
    ChurnInsert(s, k);
    assert [Add(0, 0, "")][1..] == [];
  }

  lemma ChurnMore(s: Store, k: nat, rest: seq<Act>)
    requires Inv(s) && OnTop(s, k) && k < CAPACITY
    ensures var add := Add(0, 0, "");
            var drop := Drop(Encode(Parts(k, BRAND, s.slotGen[k])));
            Run(s, [add, drop] + rest) == Run(Step(Step(s, add), drop), rest) &&
            Bumps(s, [add, drop] + rest, k) == 1 + Bumps(Step(Step(s, add), drop), rest, k)
  {
    ChurnRound(s, k);
    RunTwo(s, Add(0, 0, ""), Drop(Encode(Parts(k, BRAND, s.slotGen[k]))), rest, k);
  }

  lemma {:induction false} ChurnRuns(s: Store, k: nat, n: nat)
    requires Inv(s) && OnTop(s, k) && k < CAPACITY
    ensures SlotLive(Run(s, Churn(k, s.slotGen[k], n)), k)
    ensures Bumps(s, Churn(k, s.slotGen[k], n), k) == n
    decreases n
  {
    hide Run; hide Bumps; hide Step; hide StepBumps; hide RowOf;
    hide RowsLinked; hide FreeLinked; hide SlotsPartitioned;
    var add := Add(0, 0, "");
    var g := s.slotGen[k];
    if n == 0 {
      ChurnLast(s, k);
    } else {
      ChurnRound(s, k);
      var t := Step(Step(s, add), Drop(Encode(Parts(k, BRAND, g))));
      var rest := Churn(k, Bump(g), n - 1);
      ChurnMore(s, k, rest);
      ChurnRuns(t, k, n - 1);
    }
  }

  lemma DropPutsOnTop(s: Store, h: int, rest: seq<Act>)
    requires Inv(s) && RowOf(s, h).Some?
    ensures OnTop(Step(s, Drop(h)), Decode(h).slot)
    ensures Bumps(s, [Drop(h)] + rest, Decode(h).slot) == 1 + Bumps(Step(s, Drop(h)), rest, Decode(h).slot)
    ensures Run(s, [Drop(h)] + rest) == Run(Step(s, Drop(h)), rest)
  {
    LiveParts(s, h);
    assert ([Drop(h)] + rest)[1..] == rest;
  }

  /**
   * After exactly GENERATION_RANGE bumps a removed handle can address a new row:
   * the bound in StaleStaysDead cannot be raised.
   */
  lemma StaleRevives(s: Store, h: int)
    requires Inv(s) && RowOf(s, h).Some?
    ensures exists acts :: Bumps(s, [Drop(h)] + acts, Decode(h).slot) == GENERATION_RANGE
                           && RowOf(Run(s, [Drop(h)] + acts), h).Some?
  {
    hide Run; hide Bumps; hide Step; hide StepBumps; hide RowOf; hide Churn;
    hide RowsLinked; hide FreeLinked; hide SlotsPartitioned;
    LiveParts(s, h);
    var k := Decode(h).slot;
    var t := Step(s, Drop(h));
    var acts := Churn(k, t.slotGen[k], GENERATION_RANGE - 1);
    DropPutsOnTop(s, h, acts);
    ChurnRuns(t, k, GENERATION_RANGE - 1);
    HandleLifetime(s, h, [Drop(h)] + acts);
  }
}
