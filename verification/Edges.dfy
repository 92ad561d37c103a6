/** White space in markup: what it is, and what of it at the edges of a run is dropped. */
module Edges {
  import opened Markup

  // ---- the classes of characters ----

  /** White space is the blank and the five control characters from tab to carriage return. */
  lemma SpaceIs(c: char)
    ensures IsSpace(c) <==> c == ' ' || 9 <= c as int <= 13
    ensures EndsName(c) <==> c == ' ' || 9 <= c as int <= 13 || c == '>' || c == '/' || c == '='
    ensures IsUpper(c) <==> 65 <= c as int <= 90
  {
  }

  // ---- the edges of a run ----

  ghost predicate White(s: string) {
    forall k :: 0 <= k < |s| ==> IsSpace(s[k])
  }

  /** The white space a run begins with holds no line break. */
  ghost predicate LeadKept(s: string) {
    forall k :: 0 <= k < |s| && s[k] == '\n' ==> exists j :: 0 <= j < k && !IsSpace(s[j])
  }

  /** The white space a run ends with holds no line break. */
  ghost predicate TailKept(s: string) {
    forall k :: 0 <= k < |s| && s[k] == '\n' ==> exists j :: k < j < |s| && !IsSpace(s[j])
  }

  lemma {:induction false} LeadEndIs(s: string, i: nat)
    requires i <= |s|
    ensures forall k :: i <= k < LeadEnd(s, i) ==> IsSpace(s[k])
    ensures LeadEnd(s, i) < |s| ==> !IsSpace(s[LeadEnd(s, i)])
    decreases |s| - i
  {
    if i < |s| && IsSpace(s[i]) {
      LeadEndIs(s, i + 1);
    }
  }

  lemma {:induction false} TailStartIs(s: string, j: nat)
    requires j <= |s|
    ensures forall k :: TailStart(s, j) <= k < j ==> IsSpace(s[k])
    ensures TailStart(s, j) > 0 ==> !IsSpace(s[TailStart(s, j) - 1])
    decreases j
  {
    if j > 0 && IsSpace(s[j - 1]) {
      TailStartIs(s, j - 1);
    }
  }

  lemma LeadKeptBy(s: string, p: nat)
    requires p <= |s| && '\n' !in s[..p] && (p < |s| ==> !IsSpace(s[p]))
    ensures LeadKept(s)
  {
    assert forall k :: 0 <= k < p ==> s[..p][k] == s[k] && s[k] != '\n';
    assert IsSpace('\n');
  }

  lemma TailKeptBy(s: string, p: nat)
    requires p <= |s| && '\n' !in s[p..] && (p > 0 ==> !IsSpace(s[p - 1]))
    ensures TailKept(s)
  {
    assert forall k :: p <= k < |s| ==> s[p..][k - p] == s[k] && s[k] != '\n';
    assert IsSpace('\n');
  }

  /** The part of a run a formatting edge in front is dropped to. */
  function AfterLead(run: string): string {
    var e := LeadEnd(run, 0);
    if '\n' in run[..e] then run[e..] else run
  }

  function BeforeTail(r: string): string {
    var b := TailStart(r, |r|);
    if '\n' in r[b..] then r[..b] else r
  }

  lemma AfterLeadSays(run: string) returns (a: string)
    ensures run == a + AfterLead(run) && White(a) && (a == "" || '\n' in a) && LeadKept(AfterLead(run))
    ensures a != "" && AfterLead(run) != "" ==> !IsSpace(AfterLead(run)[0])
  {
    var e := LeadEnd(run, 0);
    LeadEndIs(run, 0);
    if '\n' in run[..e] {
      a := run[..e];
      LeadKeptBy(run[e..], 0);
    } else {
      a := "";
      LeadKeptBy(run, e);
    }
  }

  lemma BeforeTailSays(r: string) returns (b: string)
    ensures r == BeforeTail(r) + b && White(b) && (b == "" || '\n' in b) && TailKept(BeforeTail(r))
    ensures b != "" && BeforeTail(r) != "" ==> !IsSpace(BeforeTail(r)[|BeforeTail(r)| - 1])
  {
    var c := TailStart(r, |r|);
    TailStartIs(r, |r|);
    if '\n' in r[c..] {
      b := r[c..];
      TailKeptBy(r[..c], c);
    } else {
      b := "";
      TailKeptBy(r, c);
    }
  }

  lemma TrimBothEdges(run: string)
    ensures TrimEdges(run) == BeforeTail(AfterLead(run))
  {
  }

  lemma LeadOfPrefix(s: string, b: string)
    requires LeadKept(s + b)
    ensures LeadKept(s)
  {
    forall k | 0 <= k < |s| && s[k] == '\n'
      ensures exists j :: 0 <= j < k && !IsSpace(s[j])
    {
      assert (s + b)[k] == s[k];
      var j :| 0 <= j < k && !IsSpace((s + b)[j]);
      assert s[j] == (s + b)[j];
    }
  }

  /**
   * Trimming drops the white space at an edge, all of it, if it holds a line break,
   * and nothing else: an edge without one is kept whole.
   */
  lemma TrimEdgesSays(run: string) returns (a: string, b: string)
    ensures run == a + TrimEdges(run) + b
    ensures White(a) && White(b)
    ensures a == "" || '\n' in a
    ensures b == "" || '\n' in b
    ensures LeadKept(TrimEdges(run)) && TailKept(TrimEdges(run))
    ensures a != "" && TrimEdges(run) != "" ==> !IsSpace(TrimEdges(run)[0])
    ensures b != "" && TrimEdges(run) != "" ==> !IsSpace(TrimEdges(run)[|TrimEdges(run)| - 1])
  {
    hide LeadKept; hide TailKept; hide White; hide AfterLead; hide BeforeTail; hide TrimEdges;
    a := AfterLeadSays(run);
    b := BeforeTailSays(AfterLead(run));
    TrimBothEdges(run);
    LeadOfPrefix(TrimEdges(run), b);
  }

  lemma {:induction false} LeadEndWithin(s: string, p: nat, i: nat)
    requires i <= p < |s| && !IsSpace(s[p])
    ensures LeadEnd(s, i) <= p
    decreases p - i
  {
    if i < p && IsSpace(s[i]) {
      LeadEndWithin(s, p, i + 1);
    }
  }

  lemma {:induction false} TailStartBeyond(s: string, p: nat, j: nat)
    requires p < j <= |s| && !IsSpace(s[p])
    ensures TailStart(s, j) > p
    decreases j
  {
    if p < j - 1 && IsSpace(s[j - 1]) {
      TailStartBeyond(s, p, j - 1);
    }
  }

  /** Conversely, white space with a line break around text that neither begins nor ends with any is what is dropped. */
  lemma RunTrims(lead: string, r: string, trail: string)
    requires LeadKept(r) && TailKept(r) && White(lead) && White(trail)
    requires lead != "" ==> '\n' in lead && (r != "" ==> !IsSpace(r[0]))
    requires trail != "" ==> '\n' in trail && r != "" && !IsSpace(r[|r| - 1])
    ensures TrimEdges(lead + r + trail) == r
  {
    hide LeadKept; hide TailKept; hide White; hide AfterLead; hide BeforeTail; hide TrimEdges;
    TrimBothEdges(lead + r + trail);
    assert lead + r + trail == lead + (r + trail);
    LeadDropped(lead, r, trail);
    TailDropped(r, trail);
  }

  lemma LeadDropped(lead: string, r: string, trail: string)
    requires LeadKept(r) && White(lead)
    requires lead != "" ==> '\n' in lead && (r != "" ==> !IsSpace(r[0]))
    requires trail != "" ==> r != "" && !IsSpace(r[|r| - 1])
    ensures AfterLead(lead + (r + trail)) == r + trail
  {
    if lead == "" {
      assert lead + (r + trail) == r + trail;
      NoBreakInLead(r, trail);
    } else {
      LeadEndPast(lead, r + trail, 0);
      assert r == "" ==> r + trail == "";
      assert r != "" ==> (r + trail)[0] == r[0];
      assert (lead + (r + trail))[..|lead|] == lead && (lead + (r + trail))[|lead|..] == r + trail;
    }
  }

  lemma NoBreakInLead(r: string, trail: string)
    requires LeadKept(r) && (trail != "" ==> r != "" && !IsSpace(r[|r| - 1]))
    ensures AfterLead(r + trail) == r + trail
  {
    hide LeadEnd; hide IsSpace;
    var run := r + trail;
    var e := LeadEnd(run, 0);
    forall k | 0 <= k < |run| && run[k] == '\n'
      ensures e <= k
    {
      if k < |r| {
        assert r[k] == run[k];
        var p :| 0 <= p < k && !IsSpace(r[p]);
        assert run[p] == r[p];
        LeadEndWithin(run, p, 0);
      } else {
        assert run[|r| - 1] == r[|r| - 1];
        LeadEndWithin(run, |r| - 1, 0);
      }
    }
    assert forall k :: 0 <= k < e ==> run[..e][k] == run[k];
  }

  lemma {:induction false} LeadEndPast(lead: string, s: string, i: nat)
    requires White(lead) && i <= |lead| && (s != "" ==> !IsSpace(s[0]))
    ensures LeadEnd(lead + s, i) == |lead|
    decreases |lead| - i
  {
    if i < |lead| {
      LeadEndPast(lead, s, i + 1);
    } else {
      assert s != "" ==> (lead + s)[i] == s[0];
    }
  }

  lemma {:induction false} TailStartPast(s: string, trail: string, j: nat)
    requires White(trail) && |s| <= j <= |s| + |trail| && (s != "" ==> !IsSpace(s[|s| - 1]))
    ensures TailStart(s + trail, j) == |s|
    decreases j
  {
    if j > |s| {
      assert (s + trail)[j - 1] == trail[j - 1 - |s|];
      TailStartPast(s, trail, j - 1);
    } else {
      assert s != "" ==> (s + trail)[j - 1] == s[|s| - 1];
    }
  }

  lemma NoBreakInTail(r: string)
    requires TailKept(r)
    ensures BeforeTail(r) == r
  {
    var c := TailStart(r, |r|);
    forall k | 0 <= k < |r| && r[k] == '\n'
      ensures k < c
    {
      var q :| k < q < |r| && !IsSpace(r[q]);
      TailStartBeyond(r, q, |r|);
    }
    assert forall k :: 0 <= k < |r| - c ==> r[c..][k] == r[c + k];
  }

  lemma TailDropped(r: string, trail: string)
    requires TailKept(r) && White(trail)
    requires trail != "" ==> '\n' in trail && r != "" && !IsSpace(r[|r| - 1])
    ensures BeforeTail(r + trail) == r
  {
    if trail == "" {
      assert r + trail == r;
      NoBreakInTail(r);
    } else {
      TailStartPast(r, trail, |r| + |trail|);
      assert (r + trail)[|r|..] == trail && (r + trail)[..|r|] == r;
    }
  }
}
