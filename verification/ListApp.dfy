/**
 * The reference application: a plain list of items edited in table order. It has
 * no slots, handles, positions or sweeps; DomApp is proved to behave like it.
 */
module ListApp {
  import opened Wrappers
  import RowStore

  datatype Item = Item(id: int, text: string, selected: bool)

  datatype Model = Model(items: seq<Item>, nextId: int)

  /** What a click carries: the action code, the row clicked in, the labels drawn. */
  datatype Click = Click(action: int, target: Option<nat>, labels: seq<string>)

  const MARK := " !!!"

  function Add(m: Model, text: string): Model {
    if |m.items| >= RowStore.CAPACITY then m
    else Model(m.items + [Item(m.nextId, RowStore.Truncate(text), false)], m.nextId + 1)
  }

  function Build(m: Model, labels: seq<string>): Model
    decreases |labels|
  {
    if labels == [] then m
    else Add(Build(m, labels[..|labels| - 1]), labels[|labels| - 1])
  }

  function MarkTenth(items: seq<Item>): seq<Item> {
    seq(|items|, i requires 0 <= i < |items| =>
      if i % 10 == 0 then items[i].(text := RowStore.Truncate(items[i].text + MARK)) else items[i])
  }

  function Remove(items: seq<Item>, i: nat): seq<Item>
    requires i < |items|
  {
    items[..i] + items[i + 1..]
  }

  function Exchange(items: seq<Item>, i: nat, j: nat): seq<Item>
    requires i < |items| && j < |items|
  {
    items[i := items[j]][j := items[i]]
  }

  function SelectAt(items: seq<Item>, target: Option<nat>): seq<Item> {
    seq(|items|, i requires 0 <= i < |items| => items[i].(selected := target == Some(i)))
  }

  function Clear(m: Model): Model {
    m.(items := [])
  }

  /** How many rows a click on a create or append button builds. */
  function BuildCount(action: int): nat {
    if action == 1 || action == 3 then 1000 else if action == 2 then 10000 else 0
  }

  function Apply(m: Model, c: Click): Model {
    if c.action == 1 || c.action == 2 then Build(Clear(m), c.labels)
    else if c.action == 3 then Build(m, c.labels)
    else if c.action == 4 then m.(items := MarkTenth(m.items))
    else if c.action == 5 then Clear(m)
    else if c.action == 6 then
      if |m.items| > 998 then m.(items := Exchange(m.items, 1, 998)) else m
    else if c.action == 7 then
      if c.target.Some? && c.target.value < |m.items| then m.(items := Remove(m.items, c.target.value)) else m
    else if c.action == 8 then m.(items := SelectAt(m.items, c.target))
    else m
  }

  function Run(m: Model, clicks: seq<Click>): Model
    decreases |clicks|
  {
    if clicks == [] then m
    else Apply(Run(m, clicks[..|clicks| - 1]), clicks[|clicks| - 1])
  }

  // ---- what every run of the reference keeps ----

  ghost predicate WellKept(m: Model) {
    && |m.items| <= RowStore.CAPACITY
    && (forall i :: 0 <= i < |m.items| ==> m.items[i].id < m.nextId && |m.items[i].text| <= RowStore.LABEL_WIDTH)
    && (forall i, j :: 0 <= i < j < |m.items| ==> m.items[i].id != m.items[j].id)
    && (forall i, j :: 0 <= i < j < |m.items| ==> !(m.items[i].selected && m.items[j].selected))
  }

  lemma {:induction false} BuildKeeps(m: Model, labels: seq<string>)
    requires WellKept(m)
    ensures WellKept(Build(m, labels))
    ensures |Build(m, labels).items|
      == if |m.items| + |labels| < RowStore.CAPACITY then |m.items| + |labels| else RowStore.CAPACITY
    ensures m.items <= Build(m, labels).items
    decreases |labels|
  {
    if labels != [] {
      BuildKeeps(m, labels[..|labels| - 1]);
    }
  }

  /** Rows keep distinct ids, at most one is selected, and the store never overflows. */
  lemma {:induction false} RunKeeps(m: Model, clicks: seq<Click>)
    requires WellKept(m)
    ensures WellKept(Run(m, clicks))
    decreases |clicks|
  {
    if clicks != [] {
      var c := clicks[|clicks| - 1];
      var before := Run(m, clicks[..|clicks| - 1]);
      RunKeeps(m, clicks[..|clicks| - 1]);
      ApplyKeeps(before, c);
    }
  }

  lemma ApplyKeeps(m: Model, c: Click)
    requires WellKept(m)
    ensures WellKept(Apply(m, c))
  {
    hide Build; hide Exchange; hide Remove; hide MarkTenth; hide SelectAt; hide WellKept;
    ClearKeeps(m);
    BuildKeeps(Clear(m), c.labels);
    BuildKeeps(m, c.labels);
    MarkTenthKeeps(m);
    if |m.items| > 998 {
      ExchangeKeeps(m, 1, 998);
    }
    if c.target.Some? && c.target.value < |m.items| {
      RemoveKeeps(m, c.target.value);
    }
    SelectKeeps(m, c.target);
  }

  lemma ClearKeeps(m: Model)
    ensures WellKept(Clear(m))
  {
  }

  lemma MarkTenthKeeps(m: Model)
    requires WellKept(m)
    ensures WellKept(m.(items := MarkTenth(m.items)))
  {
  }

  lemma ExchangeKeeps(m: Model, i: nat, j: nat)
    requires WellKept(m) && i < |m.items| && j < |m.items|
    ensures WellKept(m.(items := Exchange(m.items, i, j)))
  {
  }

  lemma RemoveKeeps(m: Model, i: nat)
    requires WellKept(m) && i < |m.items|
    ensures WellKept(m.(items := Remove(m.items, i)))
  {
  }

  lemma SelectKeeps(m: Model, target: Option<nat>)
    requires WellKept(m)
    ensures WellKept(m.(items := SelectAt(m.items, target)))
  {
  }

  /** Swapping twice restores the table, whatever it holds. */
  lemma SwapTwice(m: Model, target: Option<nat>)
    ensures Apply(Apply(m, Click(6, target, [])), Click(6, target, [])) == m
  {
    if |m.items| > 998 {
      assert Exchange(Exchange(m.items, 1, 998), 1, 998) == m.items;
    }
  }
}
