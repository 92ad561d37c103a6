/** What each click does to the table, row by row and in numbers. */
module Actions {
  import opened Wrappers
  import opened ListApp
  import opened Labels

  function Least(a: int, b: int): int {
    if a < b then a else b
  }

  /** A text as a 48-character column holds it. */
  function Held(text: string): string {
    if |text| <= 48 then text else text[..48]
  }

  // ---- building ----

  /** Building appends one row for each label in order while there are fewer than 16384, numbered on from nextId. */
  lemma {:induction false} BuildIs(m: Model, labels: seq<string>)
    requires |m.items| <= 16384
    ensures var r := Build(m, labels);
      && |r.items| == Least(16384, |m.items| + |labels|)
      && r.nextId == m.nextId + |r.items| - |m.items|
      && m.items <= r.items
      && forall i :: 0 <= i < |r.items| - |m.items| ==>
           r.items[|m.items| + i] == Item(m.nextId + i, Held(labels[i]), false)
    decreases |labels|
  {
    if labels != [] {
      var front := labels[..|labels| - 1];
      BuildIs(m, front);
      var t := Build(m, front);
      if |t.items| < 16384 {
        assert |t.items| == |m.items| + |front|;
      }
    }
  }

  /** Create: 1000 rows under action 1 and 10000 under action 2, in place of all that were there. */
  lemma CreateSays(m: Model, c: Click)
    requires (c.action == 1 || c.action == 2) && |c.labels| == BuildCount(c.action)
    ensures var r := Apply(m, c);
      && |r.items| == |c.labels| == (if c.action == 1 then 1000 else 10000)
      && r.nextId == m.nextId + |r.items|
      && forall i :: 0 <= i < |r.items| ==> r.items[i] == Item(m.nextId + i, Held(c.labels[i]), false)
  {
    hide Build;
    BuildIs(Clear(m), c.labels);
    assert Apply(m, c) == Build(Clear(m), c.labels);
    var r := Apply(m, c);
    assert forall i :: 0 <= i < |r.items| ==> r.items[|Clear(m).items| + i] == r.items[i];
  }

  /** None of the rows that were there is left: their numbers are all below the new ones. */
  lemma CreateReplaces(m: Model, c: Click, i: nat, j: nat)
    requires WellKept(m) && (c.action == 1 || c.action == 2) && |c.labels| == BuildCount(c.action)
    requires i < |m.items| && j < |Apply(m, c).items|
    ensures Apply(m, c).items[j].id != m.items[i].id
  {
    hide Apply;
    CreateSays(m, c);
  }

  /** Append: the rows that were there stay as they are, and 1000 more follow, as far as 16384 allow. */
  lemma AppendSays(m: Model, c: Click)
    requires |m.items| <= 16384 && c.action == 3 && |c.labels| == BuildCount(3)
    ensures var r := Apply(m, c);
      && |r.items| == Least(16384, |m.items| + 1000)
      && r.nextId == m.nextId + |r.items| - |m.items|
      && (forall i :: 0 <= i < |m.items| ==> r.items[i] == m.items[i])
      && forall i :: 0 <= i < |r.items| - |m.items| ==>
           r.items[|m.items| + i] == Item(m.nextId + i, Held(c.labels[i]), false)
  {
    hide Build;
    BuildIs(m, c.labels);
  }

  // ---- the other actions ----

  /** Update: the rows 0, 10, 20 and so on get " !!!" behind their text, as far as 48 characters hold it. */
  lemma UpdateSays(m: Model, c: Click)
    requires c.action == 4
    ensures var r := Apply(m, c);
      && |r.items| == |m.items| && r.nextId == m.nextId
      && forall i :: 0 <= i < |m.items| ==>
           && r.items[i].id == m.items[i].id && r.items[i].selected == m.items[i].selected
           && r.items[i].text == if i % 10 == 0 then Held(m.items[i].text + " !!!") else m.items[i].text
  {
  }

  lemma ClearSays(m: Model, c: Click)
    requires c.action == 5
    ensures Apply(m, c).items == [] && Apply(m, c).nextId == m.nextId
  {
  }

  /** Swap: with 999 rows or more those at 1 and 998 change places; otherwise nothing happens. */
  lemma SwapSays(m: Model, c: Click)
    requires c.action == 6
    ensures var r := Apply(m, c);
      && |r.items| == |m.items| && r.nextId == m.nextId
      && forall i :: 0 <= i < |m.items| ==>
           r.items[i] == m.items[if |m.items| <= 998 then i else if i == 1 then 998 else if i == 998 then 1 else i]
  {
  }

  /** Remove: the rows before the clicked one stay, those after it move up one; a click in no row does nothing. */
  lemma RemoveSays(m: Model, c: Click)
    requires c.action == 7
    ensures var r := Apply(m, c);
      match c.target
      case Some(t) =>
        if t < |m.items| then
          && |r.items| == |m.items| - 1 && r.nextId == m.nextId
          && forall i :: 0 <= i < |r.items| ==> r.items[i] == m.items[if i < t then i else i + 1]
        else r == m
      case None => r == m
  {
  }

  /** Select: the clicked row is the one selected; nothing else changes. */
  lemma SelectSays(m: Model, c: Click)
    requires c.action == 8
    ensures var r := Apply(m, c);
      && |r.items| == |m.items| && r.nextId == m.nextId
      && forall i :: 0 <= i < |m.items| ==>
           && r.items[i].id == m.items[i].id && r.items[i].text == m.items[i].text
           && (r.items[i].selected <==> c.target.Some? && c.target.value == i)
  {
  }

  lemma OtherActions(m: Model, c: Click)
    requires c.action < 1 || c.action > 8
    ensures Apply(m, c) == m
  {
  }

  // ---- runs ----

  /** A run is its clicks one after the other. */
  lemma {:induction false} RunsCompose(m: Model, a: seq<Click>, b: seq<Click>)
    ensures Run(m, a + b) == Run(Run(m, a), b)
    decreases |b|
  {
    hide Apply;
    if b == [] {
      assert a + b == a;
    } else {
      assert (a + b)[..|a + b| - 1] == a + b[..|b| - 1];
      RunsCompose(m, a, b[..|b| - 1]);
    }
  }

  lemma RunOne(m: Model, c: Click)
    ensures Run(m, []) == m && Run(m, [c]) == Apply(m, c)
  {
    hide Apply;
    assert [c][..0] == [];
  }

  // ---- labels ----

  /** A label is an adjective, a colour and a noun, in that order, with one blank between two words. */
  lemma LabelWords(d: Draw)
    ensures var s := MakeLabel(d);
      var p, q := |ADJECTIVES[d.0]|, |ADJECTIVES[d.0]| + 1 + |COLOURS[d.1]|;
      && |s| == q + 1 + |NOUNS[d.2]|
      && s[..p] == ADJECTIVES[d.0] && s[p] == ' '
      && s[p + 1..q] == COLOURS[d.1] && s[q] == ' '
      && s[q + 1..] == NOUNS[d.2]
  {
    ThreeWords(ADJECTIVES[d.0], COLOURS[d.1], NOUNS[d.2]);
  }

  lemma ThreeWords(a: string, b: string, c: string)
    ensures var s := a + " " + b + " " + c;
      var p, q := |a|, |a| + 1 + |b|;
      |s| == q + 1 + |c| && s[..p] == a && s[p] == ' ' && s[p + 1..q] == b && s[q] == ' ' && s[q + 1..] == c
  {
    var x := a + " ";
    var y := x + b;
    var z := y + " ";
    Cut(a, " " + (b + (" " + c)));
    Cut(x, b + (" " + c));
    Cut(y, " " + c);
    Cut(z, c);
    Regroup(a, b, c);
    var s := z + c;
    assert s[|x|..|y|] == s[..|y|][|x|..] == y[|x|..];
    Cut(x, b);
  }

  lemma Cut(a: string, b: string)
    ensures (a + b)[..|a|] == a && (a + b)[|a|..] == b
  {
  }

  lemma Regroup(a: string, b: string, c: string)
    ensures a + " " + b + " " + c == a + (" " + (b + (" " + c)))
    ensures a + " " + b + " " + c == a + " " + (b + (" " + c))
    ensures a + " " + b + " " + c == a + " " + b + (" " + c)
  {
  }

  /** The first and the last word of each list, in a label. */
  lemma LabelEnds()
    ensures MakeLabel((0, 0, 0)) == "pretty red table"
    ensures MakeLabel((24, 10, 12)) == "fancy orange keyboard"
  {
  }

  /** One label for each draw, in the order drawn; none is cut by the column. */
  lemma LabelsDrawn(ds: seq<Draw>)
    ensures |MakeLabels(ds)| == |ds|
    ensures forall i :: 0 <= i < |ds| ==> MakeLabels(ds)[i] == MakeLabel(ds[i]) == Held(MakeLabels(ds)[i])
  {
    hide MakeLabel;
    forall i | 0 <= i < |ds|
      ensures |MakeLabel(ds[i])| <= 48
    {
      LabelFits(ds[i]);
    }
  }
}
