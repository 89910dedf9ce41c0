/** When the tip the tree is given is the tip its description asks for. */
module TxPowTreeChoice {
  import opened TxPowTreeModel
  import opened TxPowTreeStream

  /** At each step down one child leads both by the totals as written and by the weight of
      whole subtrees. */
  predicate SameLeads(t: Tree)
    decreases t
  {
    t.kids == [] ||
    exists i :: 0 <= i < |t.kids| && Leads(t.kids, i, Shallow) && Leads(t.kids, i, Subtree) && SameLeads(t.kids[i])
  }

  /** The written fork choice is the described one exactly then. */
  lemma {:induction false} ChoiceAgreesExactly(t: Tree)
    requires Separate(t)
    ensures Tip(t, Shallow) == Tip(t, Subtree) <==> SameLeads(t)
    decreases t
  {
    if t.kids != [] {
      var ts := t.kids;
      var i := BestLeads(ts, Shallow);
      var j := BestLeads(ts, Subtree);
      TipStep(t, Shallow);
      TipStep(t, Subtree);
      if i == j {
        KidSeparate(ts, i);
        ChoiceAgreesExactly(ts[i]);
        OnlyLeader(t, i);
      } else {
        TipVisited(ts[i], Shallow);
        TipVisited(ts[j], Subtree);
        NodesApart(ts, i, j, Tip(ts[i], Shallow), Tip(ts[j], Subtree));
        if SameLeads(t) {
          var k :| 0 <= k < |ts| && Leads(ts, k, Shallow) && Leads(ts, k, Subtree) && SameLeads(ts[k]);
          OneLeads(ts, i, k, Shallow);
          OneLeads(ts, j, k, Subtree);
        }
      }
    }
  }

  lemma OnlyLeader(t: Tree, i: nat)
    requires i < |t.kids| && Leads(t.kids, i, Shallow) && Leads(t.kids, i, Subtree)
    ensures SameLeads(t) <==> SameLeads(t.kids[i])
  {
    if SameLeads(t) {
      var k :| 0 <= k < |t.kids| && Leads(t.kids, k, Shallow) && Leads(t.kids, k, Subtree) && SameLeads(t.kids[k]);
      OneLeads(t.kids, i, k, Shallow);
    }
  }

  /** On a tree with distinct ids, told of the list of its nodes. */
  lemma FollowsGhostExactly(t: Tree)
    requires Unique(Visit(t))
    ensures Tip(t, Shallow) == Tip(t, Subtree) <==> SameLeads(t)
  {
    UniqueSeparate(t);
    ChoiceAgreesExactly(t);
  }
}
