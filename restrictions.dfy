/** The restriction lookups: the configuration lists groups of question
    names of which at most one may appear in an exam. */
module Restrictions {

  /** Some member of group g is among the chosen names. */
  predicate Meets(g: seq<string>, chosen: seq<string>)
  {
    exists j :: 0 <= j < |g| && g[j] in chosen
  }

  /** hasRestriction(chosen, q): walks the groups in order and reports a
      conflict as soon as a group that holds q has a member already chosen. */
  function HasRestriction(groups: seq<seq<string>>, chosen: seq<string>, q: string): (r: bool)
    ensures r <==> exists i :: 0 <= i < |groups| && q in groups[i] && Meets(groups[i], chosen)
  {
    if groups == [] then false
    else if q in groups[0] && Meets(groups[0], chosen) then true
    else
      var rest := HasRestriction(groups[1..], chosen, q);
      assert forall i :: 1 <= i < |groups| ==> groups[i] == groups[1..][i - 1];
      rest
  }

  /** A name that is in some group and already chosen always conflicts
      with itself; a name in no group never conflicts. */
  lemma HasRestrictionCases(groups: seq<seq<string>>, chosen: seq<string>, q: string)
    ensures (exists i :: 0 <= i < |groups| && q in groups[i]) && q in chosen ==> HasRestriction(groups, chosen, q)
    ensures (forall i :: 0 <= i < |groups| ==> q !in groups[i]) ==> !HasRestriction(groups, chosen, q)
  {
    if (exists i :: 0 <= i < |groups| && q in groups[i]) && q in chosen {
      var i :| 0 <= i < |groups| && q in groups[i];
      var j :| 0 <= j < |groups[i]| && groups[i][j] == q;
      assert Meets(groups[i], chosen);
    }
  }

  /** The members of g other than q, in order, duplicates kept. */
  function Others(g: seq<string>, q: string): (r: seq<string>)
    ensures forall x :: x in r <==> x in g && x != q
    ensures |r| <= |g|
  {
    if g == [] then []
    else
      var init := Others(g[..|g| - 1], q);
      assert forall x :: x in g <==> x in g[..|g| - 1] || x == g[|g| - 1];
      init + (if g[|g| - 1] != q then [g[|g| - 1]] else [])
  }

  /** What getRestrictions(q) returns: group by group, in configuration
      order, the members other than q of every group that holds q. */
  function Related(groups: seq<seq<string>>, q: string): seq<string>
  {
    if groups == [] then []
    else
      var last := groups[|groups| - 1];
      Related(groups[..|groups| - 1], q) + (if q in last then Others(last, q) else [])
  }

  /** Related splits over consecutive runs of groups: each group adds its
      own part, so a name shared with q in two groups appears twice. */
  lemma {:induction false} RelatedAppend(g1: seq<seq<string>>, g2: seq<seq<string>>, q: string)
    ensures Related(g1 + g2, q) == Related(g1, q) + Related(g2, q)
    decreases |g2|
  {
    if g2 != [] {
      var last := g2[|g2| - 1];
      assert (g1 + g2)[..|g1 + g2| - 1] == g1 + g2[..|g2| - 1];
      RelatedAppend(g1, g2[..|g2| - 1], q);
    } else {
      assert g1 + g2 == g1;
    }
  }

  /** A name is reported for q exactly when it differs from q and shares a
      group with it. */
  lemma {:induction false} RelatedMembers(groups: seq<seq<string>>, q: string, x: string)
    ensures x in Related(groups, q) <==> x != q && exists i :: 0 <= i < |groups| && q in groups[i] && x in groups[i]
    decreases |groups|
  {
    if groups != [] {
      var init := groups[..|groups| - 1];
      RelatedMembers(init, q, x);
      assert forall i :: 0 <= i < |init| ==> init[i] == groups[i];
    }
  }

  /** A name in no group has no related names. */
  lemma {:induction false} RelatedOutsideGroups(groups: seq<seq<string>>, q: string)
    requires forall i :: 0 <= i < |groups| ==> q !in groups[i]
    ensures Related(groups, q) == []
    decreases |groups|
  {
    if groups != [] {
      RelatedOutsideGroups(groups[..|groups| - 1], q);
    }
  }

  /** The inner loop of getRestrictions over one group holding q. */
  method AppendOthers(res: seq<string>, g: seq<string>, q: string) returns (out: seq<string>)
    ensures out == res + Others(g, q)
  {
    out := res;
    var j := 0;
    while j < |g|
      invariant 0 <= j <= |g|
      invariant out == res + Others(g[..j], q)
    {
      assert g[..j + 1][..j] == g[..j];
      if g[j] != q {
        out := out + [g[j]];
      }
      j := j + 1;
    }
    assert g[..|g|] == g;
  }

  /** getRestrictions(q): the nested loops that append, group by group,
      every member other than q of each group holding q. */
  method GetRestrictions(groups: seq<seq<string>>, q: string) returns (res: seq<string>)
    ensures res == Related(groups, q)
  {
    res := [];
    var i := 0;
    while i < |groups|
      invariant 0 <= i <= |groups|
      invariant res == Related(groups[..i], q)
    {
      var g := groups[i];
      if q in g {
        res := AppendOthers(res, g, q);
      }
      assert groups[..i + 1][..i] == groups[..i];
      i := i + 1;
    }
    assert groups[..|groups|] == groups;
  }
}
