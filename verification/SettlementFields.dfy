// The settlement report on the fields of the verified closures, and the order of what it lists.
module SettlementFields {
  import opened Distinct
  import opened SettlementContradictions
  import opened Wrappers

  /** A closure that verifies claims that the decision was settled by the swap. */
  predicate Settles(v: Verification, decision: string, swap: string) {
    v.valid && v.decisionHash == Some(decision) && v.swapTxHash == Some(swap)
  }

  /** Without an attester the text is empty. */
  predicate AttestedBy(v: Verification, attester: string) {
    v.attester == Some(attester) || (v.attester == None && attester == "")
  }

  /** A closure that is not valid, or names no decision or no swap, is reported with its reason. */
  predicate Incomplete(v: Verification) {
    !v.valid || v.decisionHash == None || v.swapTxHash == None
  }

  lemma CountedOnFields(s: Candidates, i: nat, decision: string)
    ensures i < |s| ==> (Counted(s[i]) <==> !Incomplete(s[i]))
    ensures Claims(s, i, decision) <==> i < |s| && exists swap :: Settles(s[i], decision, swap)
  {
    if Claims(s, i, decision) {
      assert Settles(s[i], decision, s[i].swapTxHash.value);
    }
  }

  lemma {:induction false} UnverifiedMembers(s: Candidates, u: Unverified)
    ensures u in UnverifiedOf(s) <==> u.index < |s| && Incomplete(s[u.index]) && u.reason == s[u.index].reason
  {
    if s != [] {
      var (front, last) := (s[..|s| - 1], |s| - 1);
      UnverifiedMembers(front, u);
      assert u.index < last ==> front[u.index] == s[u.index];
      assert u in UnverifiedOf(s)
        <==> u in UnverifiedOf(front) || (!Counted(s[last]) && u == Unverified(last, s[last].reason));
    }
  }

  /** Exactly the incomplete closures are unverified, each with its own reason. */
  lemma UnverifiedExactly(s: Candidates, i: nat, reason: string)
    ensures Unverified(i, reason) in ReportOf(s).unverified <==> i < |s| && Incomplete(s[i]) && reason == s[i].reason
  {
    UnverifiedMembers(s, Unverified(i, reason));
  }

  /** Two closures do not settle one decision by different swaps. */
  predicate Compatible(v: Verification, w: Verification) {
    Incomplete(v) || Incomplete(w) || v.decisionHash != w.decisionHash || v.swapTxHash == w.swapTxHash
  }

  /** Consistent: every two closures are compatible. */
  lemma ConsistentOnFields(s: Candidates)
    ensures ReportOf(s).consistent <==> forall i, j :: 0 <= i < |s| && 0 <= j < |s| ==> Compatible(s[i], s[j])
  {
    ConsistentExactly(s);
    if decision :| Contradicted(s, decision) {
      var i: nat, j: nat :| Claims(s, i, decision) && Claims(s, j, decision)
                            && s[i].swapTxHash.value != s[j].swapTxHash.value;
      assert !Compatible(s[i], s[j]);
    }
    if i, j :| 0 <= i < |s| && 0 <= j < |s| && !Compatible(s[i], s[j]) {
      assert Claims(s, i, s[i].decisionHash.value) && Claims(s, j, s[i].decisionHash.value);
      assert Contradicted(s, s[i].decisionHash.value);
    }
  }

  /** A contradiction: the positions of the closures that settle its decision, their swaps and their attesters. */
  lemma ContradictionOnFields(s: Candidates, k: nat, i: nat, text: string)
    requires k < |ReportOf(s).contradictions|
    ensures var c := ReportOf(s).contradictions[k];
      && (i in c.indices <==> i < |s| && exists swap :: Settles(s[i], c.decisionHash, swap))
      && (text in c.swapTxHashes <==> exists j :: 0 <= j < |s| && Settles(s[j], c.decisionHash, text))
      && (text in c.attesters
          <==> exists j, swap :: 0 <= j < |s| && Settles(s[j], c.decisionHash, swap) && AttestedBy(s[j], text))
      && |c.swapTxHashes| >= 2
  {
    var c := ReportOf(s).contradictions[k];
    ContradictionIsComplete(s, k, i, text);
    CountedOnFields(s, i, c.decisionHash);
    if j: nat :| ClaimsSwap(s, j, c.decisionHash, text) {
      assert Settles(s[j], c.decisionHash, text);
    }
    if j :| 0 <= j < |s| && Settles(s[j], c.decisionHash, text) {
      assert ClaimsSwap(s, j, c.decisionHash, text);
    }
    if j: nat :| ClaimedBy(s, j, c.decisionHash, text) {
      assert Settles(s[j], c.decisionHash, s[j].swapTxHash.value) && AttestedBy(s[j], text);
    }
    if j, swap :| 0 <= j < |s| && Settles(s[j], c.decisionHash, swap) && AttestedBy(s[j], text) {
      assert ClaimedBy(s, j, c.decisionHash, text);
    }
    assert c in ReportOf(s).contradictions;
    AmongMembers(s, Decisions(s), c.decisionHash);
    assert c.decisionHash == Named(ReportOf(s).contradictions)[k];
  }

  // ---------- The order of what is listed ----------

  /** Where a decision is claimed first. */
  function First(s: Candidates, decision: string): int {
    var group := Group(s, decision);
    if group == [] then -1 else group[0].index
  }

  lemma GroupGrows(s: Candidates, decision: string)
    requires s != [] && decision in Decisions(s[..|s| - 1])
    ensures First(s, decision) == First(s[..|s| - 1], decision) && 0 <= First(s, decision) < |s| - 1
  {
    var front := s[..|s| - 1];
    DecisionsMembers(front, decision);
    var i: nat :| Claims(front, i, decision);
    GroupMembers(front, decision, i);
    assert Group(front, decision) != [];
  }

  predicate Ascending(s: Candidates, decisions: seq<string>) {
    forall p, q :: 0 <= p < q < |decisions| ==> First(s, decisions[p]) < First(s, decisions[q])
  }

  lemma {:induction false} DecisionsInOrder(s: Candidates)
    ensures Ascending(s, Decisions(s))
  {
    if s != [] {
      var front := s[..|s| - 1];
      DecisionsInOrder(front);
      var (before, d) := (Decisions(front), Decisions(s));
      forall p, q | 0 <= p < q < |d| ensures First(s, d[p]) < First(s, d[q]) {
        GroupGrows(s, d[p]);
        if q < |before| {
          GroupGrows(s, d[q]);
        } else {
          UnknownDecision(front, d[q]);
          assert Group(s, d[q]) == [] + [EntryOf(|front|, s[|front|])];
        }
      }
    }
  }

  lemma {:induction false} AmongInOrder(s: Candidates, decisions: seq<string>)
    requires Ascending(s, decisions)
    ensures Ascending(s, Named(ContradictionsAmong(s, decisions)))
  {
    if decisions != [] {
      var (front, last) := (decisions[..|decisions| - 1], decisions[|decisions| - 1]);
      AmongInOrder(s, front);
      AmongNext(s, decisions);
      var names := Named(ContradictionsAmong(s, front));
      forall k | 0 <= k < |names| ensures First(s, names[k]) < First(s, last) {
        AmongMembers(s, front, names[k]);
        var p :| 0 <= p < |front| && front[p] == names[k];
        assert decisions[p] == front[p];
      }
    }
  }

  lemma ContradictionStart(s: Candidates, k: nat)
    requires k < |ReportOf(s).contradictions|
    ensures var c := ReportOf(s).contradictions[k];
      |c.indices| >= 2 && c.indices[0] == First(s, c.decisionHash)
      && c.swapTxHashes == Unique(Swaps(Group(s, c.decisionHash)))
      && c.attesters == Unique(Attesters(Group(s, c.decisionHash)))
  {
    var c := ReportOf(s).contradictions[k];
    assert c in ReportOf(s).contradictions;
    AmongMembers(s, Decisions(s), c.decisionHash);
    assert c.decisionHash == Named(ReportOf(s).contradictions)[k];
    var swaps := Swaps(Group(s, c.decisionHash));
    SeveralDiffer(swaps);
  }

  /** Contradictions are listed by the first closure of each. */
  lemma ContradictionsInOrder(s: Candidates, k: nat, l: nat)
    requires k < l < |ReportOf(s).contradictions|
    ensures var cs := ReportOf(s).contradictions;
      cs[k].indices != [] && cs[l].indices != [] && cs[k].indices[0] < cs[l].indices[0]
  {
    DecisionsInOrder(s);
    AmongInOrder(s, Decisions(s));
    ContradictionStart(s, k);
    ContradictionStart(s, l);
    var names := Named(ReportOf(s).contradictions);
    assert First(s, names[k]) < First(s, names[l]);
  }

  lemma EntryAt(s: Candidates, decision: string, j: nat) returns (m: nat)
    requires j < |s| && !Incomplete(s[j]) && s[j].decisionHash == Some(decision)
    ensures var group := Group(s, decision); m < |group| && group[m] == EntryOf(j, s[j])
  {
    GroupMembers(s, decision, j);
    var group := Group(s, decision);
    m :| 0 <= m < |group| && Indices(group)[m] == j;
  }

  /** Swaps and attesters of a contradiction stand in the order in which its closures first name them. */
  lemma SwapsInOrder(s: Candidates, k: nat, p: nat, q: nat)
    requires k < |ReportOf(s).contradictions| && p < q < |ReportOf(s).contradictions[k].swapTxHashes|
    ensures var c := ReportOf(s).contradictions[k];
      exists i :: && 0 <= i < |s| && Settles(s[i], c.decisionHash, c.swapTxHashes[p])
                  && forall j :: 0 <= j <= i ==> !Settles(s[j], c.decisionHash, c.swapTxHashes[q])
  {
    var c := ReportOf(s).contradictions[k];
    ContradictionStart(s, k);
    var group := Group(s, c.decisionHash);
    var (x, y) := (c.swapTxHashes[p], c.swapTxHashes[q]);
    UniqueInOrder(Swaps(group), p, q);
    var n :| 0 <= n < |group| && Swaps(group)[n] == x && forall m :: 0 <= m <= n ==> Swaps(group)[m] != y;
    var i := group[n].index;
    GroupMembers(s, c.decisionHash, i);
    assert Settles(s[i], c.decisionHash, x);
    forall j | 0 <= j <= i && !Incomplete(s[j]) && s[j].decisionHash == Some(c.decisionHash)
      ensures s[j].swapTxHash != Some(y)
    {
      var m := EntryAt(s, c.decisionHash, j);
      GroupAscends(s, c.decisionHash);
      assert m <= n && Swaps(group)[m] != y;
    }
  }

  lemma AttestersInOrder(s: Candidates, k: nat, p: nat, q: nat)
    requires k < |ReportOf(s).contradictions| && p < q < |ReportOf(s).contradictions[k].attesters|
    ensures var c := ReportOf(s).contradictions[k];
      exists i, swap :: && 0 <= i < |s| && Settles(s[i], c.decisionHash, swap) && AttestedBy(s[i], c.attesters[p])
                        && forall j :: 0 <= j <= i && s[j].decisionHash == Some(c.decisionHash) && !Incomplete(s[j]) ==>
                                         !AttestedBy(s[j], c.attesters[q])
  {
    var c := ReportOf(s).contradictions[k];
    ContradictionStart(s, k);
    var group := Group(s, c.decisionHash);
    var (x, y) := (c.attesters[p], c.attesters[q]);
    UniqueInOrder(Attesters(group), p, q);
    var n :| 0 <= n < |group| && Attesters(group)[n] == x && forall m :: 0 <= m <= n ==> Attesters(group)[m] != y;
    var i := group[n].index;
    GroupMembers(s, c.decisionHash, i);
    assert Settles(s[i], c.decisionHash, s[i].swapTxHash.value) && AttestedBy(s[i], x);
    forall j | 0 <= j <= i && s[j].decisionHash == Some(c.decisionHash) && !Incomplete(s[j])
      ensures !AttestedBy(s[j], y)
    {
      var m := EntryAt(s, c.decisionHash, j);
      GroupAscends(s, c.decisionHash);
      assert m <= n && Attesters(group)[m] != y;
    }
  }
}
