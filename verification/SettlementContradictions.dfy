// Double settlements: verified closures that claim the same decision for different swap transactions.
module SettlementContradictions {
  import opened Distinct
  import opened Wrappers

  /** What verifying one candidate closure answers. */
  datatype Verification = Verification(
    valid: bool, reason: string, decisionHash: Option<string>, swapTxHash: Option<string>, attester: Option<string>)

  datatype Entry = Entry(index: nat, swapTxHash: string, attester: string)

  datatype Unverified = Unverified(index: nat, reason: string)

  datatype Contradiction = Contradiction(
    decisionHash: string, swapTxHashes: seq<string>, attesters: seq<string>, indices: seq<nat>)

  datatype Report = Report(
    consistent: bool, verified: nat, unverified: seq<Unverified>, contradictions: seq<Contradiction>)

  type Candidates = seq<Verification>

  predicate Counted(v: Verification) {
    v.valid && v.decisionHash.Some? && v.swapTxHash.Some?
  }

  function EntryOf(index: nat, v: Verification): Entry
    requires Counted(v)
  {
    Entry(index, v.swapTxHash.value, match v.attester case None => "" case Some(a) => a)
  }

  // ---------- The report, candidate by candidate ----------

  function VerifiedCount(s: Candidates): nat {
    if s == [] then 0 else VerifiedCount(s[..|s| - 1]) + if Counted(s[|s| - 1]) then 1 else 0
  }

  function UnverifiedOf(s: Candidates): seq<Unverified> {
    if s == [] then []
    else
      var last := |s| - 1;
      UnverifiedOf(s[..last]) + if Counted(s[last]) then [] else [Unverified(last, s[last].reason)]
  }

  /** The verified decisions, each where it first occurs. */
  function Decisions(s: Candidates): seq<string> {
    if s == [] then []
    else
      var (front, last) := (Decisions(s[..|s| - 1]), s[|s| - 1]);
      if Counted(last) && last.decisionHash.value !in front then front + [last.decisionHash.value] else front
  }

  /** The verified candidates for one decision, in order. */
  function Group(s: Candidates, decision: string): seq<Entry> {
    if s == [] then []
    else
      var last := |s| - 1;
      Group(s[..last], decision)
      + if Counted(s[last]) && s[last].decisionHash.value == decision then [EntryOf(last, s[last])] else []
  }

  function Swaps(group: seq<Entry>): (swaps: seq<string>)
    ensures |swaps| == |group|
  {
    seq(|group|, i requires 0 <= i < |group| => group[i].swapTxHash)
  }

  function Attesters(group: seq<Entry>): (attesters: seq<string>)
    ensures |attesters| == |group|
  {
    seq(|group|, i requires 0 <= i < |group| => group[i].attester)
  }

  function Indices(group: seq<Entry>): (indices: seq<nat>)
    ensures |indices| == |group|
  {
    seq(|group|, i requires 0 <= i < |group| => group[i].index)
  }

  predicate IsContradicted(group: seq<Entry>) {
    |Unique(Swaps(group))| > 1
  }

  function ContradictionOf(decision: string, group: seq<Entry>): Contradiction {
    Contradiction(decision, Unique(Swaps(group)), Unique(Attesters(group)), Indices(group))
  }

  function ContradictionsAmong(s: Candidates, decisions: seq<string>): seq<Contradiction> {
    if decisions == [] then []
    else
      var (front, last) := (decisions[..|decisions| - 1], decisions[|decisions| - 1]);
      ContradictionsAmong(s, front)
      + if IsContradicted(Group(s, last)) then [ContradictionOf(last, Group(s, last))] else []
  }

  function ReportOf(s: Candidates): Report {
    var contradictions := ContradictionsAmong(s, Decisions(s));
    Report(contradictions == [], VerifiedCount(s), UnverifiedOf(s), contradictions)
  }

  // ---------- The code ----------

  /** The Map of groups, with the order in which its keys were inserted. */
  ghost predicate Groups(byDecision: map<string, seq<Entry>>, order: seq<string>, s: Candidates) {
    && order == Decisions(s)
    && (forall d :: d in byDecision <==> d in order)
    && (forall d :: d in byDecision ==> byDecision[d] == Group(s, d))
  }

  lemma {:induction false} UnknownDecision(s: Candidates, decision: string)
    requires decision !in Decisions(s)
    ensures Group(s, decision) == []
  {
    if s != [] {
      UnknownDecision(s[..|s| - 1], decision);
    }
  }

  lemma Prefix(s: Candidates, i: nat)
    requires i < |s|
    ensures s[..i + 1][..i] == s[..i] && s[..i + 1][i] == s[i] && |s[..i + 1]| == i + 1
  {
  }

  lemma GroupsNext(byDecision: map<string, seq<Entry>>, order: seq<string>, s: Candidates, i: nat)
    requires i < |s| && Groups(byDecision, order, s[..i]) && Counted(s[i])
    ensures var d := s[i].decisionHash.value;
            var group := (if d in byDecision then byDecision[d] else []) + [EntryOf(i, s[i])];
            Groups(byDecision[d := group], if d in byDecision then order else order + [d], s[..i + 1])
  {
    Prefix(s, i);
    var d := s[i].decisionHash.value;
    if d !in byDecision {
      UnknownDecision(s[..i], d);
    }
  }

  lemma GroupsSkip(byDecision: map<string, seq<Entry>>, order: seq<string>, s: Candidates, i: nat)
    requires i < |s| && Groups(byDecision, order, s[..i]) && !Counted(s[i])
    ensures Groups(byDecision, order, s[..i + 1])
  {
    Prefix(s, i);
  }

  method GroupByDecision(s: Candidates)
    returns (verified: nat, unverified: seq<Unverified>, byDecision: map<string, seq<Entry>>, order: seq<string>)
    ensures verified == VerifiedCount(s) && unverified == UnverifiedOf(s)
    ensures Groups(byDecision, order, s)
  {
    verified, unverified, byDecision, order := 0, [], map[], [];
    for index := 0 to |s|
      invariant verified == VerifiedCount(s[..index]) && unverified == UnverifiedOf(s[..index])
      invariant Groups(byDecision, order, s[..index])
    {
      var verification := s[index];
      Prefix(s, index);
      if !verification.valid || verification.decisionHash.None? || verification.swapTxHash.None? {
        unverified := unverified + [Unverified(index, verification.reason)];
        GroupsSkip(byDecision, order, s, index);
        continue;
      }
      verified := verified + 1;
      var decision := verification.decisionHash.value;
      var group := if decision in byDecision then byDecision[decision] else [];
      group := group + [EntryOf(index, verification)];
      GroupsNext(byDecision, order, s, index);
      order := if decision in byDecision then order else order + [decision];
      byDecision := byDecision[decision := group];
    }
    assert s[..|s|] == s;
  }

  lemma AmongSnoc(s: Candidates, order: seq<string>, k: nat)
    requires k < |order|
    ensures ContradictionsAmong(s, order[..k + 1])
         == ContradictionsAmong(s, order[..k])
            + if IsContradicted(Group(s, order[k])) then [ContradictionOf(order[k], Group(s, order[k]))] else []
  {
    assert order[..k + 1][..k] == order[..k] && order[..k + 1][k] == order[k];
  }

  method DetectContradictions(s: Candidates) returns (report: Report)
    ensures report == ReportOf(s)
  {
    var verified, unverified, byDecision, order := GroupByDecision(s);
    var consistent, contradictions := true, [];
    for k := 0 to |order|
      invariant contradictions == ContradictionsAmong(s, order[..k])
      invariant consistent == (contradictions == [])
    {
      var group := byDecision[order[k]];
      AmongSnoc(s, order, k);
      var distinctSwapTxHashes := Unique(Swaps(group));
      if |distinctSwapTxHashes| > 1 {
        consistent := false;
        contradictions := contradictions
          + [Contradiction(order[k], distinctSwapTxHashes, Unique(Attesters(group)), Indices(group))];
      }
    }
    assert order[..|order|] == order;
    report := Report(consistent, verified, unverified, contradictions);
  }

  // ---------- What the report says ----------

  /** A verified candidate for the decision. */
  predicate Claims(s: Candidates, i: nat, decision: string) {
    i < |s| && Counted(s[i]) && s[i].decisionHash.value == decision
  }

  /** Two verified candidates claim the decision for different swap transactions. */
  ghost predicate Contradicted(s: Candidates, decision: string) {
    exists i: nat, j: nat ::
      Claims(s, i, decision) && Claims(s, j, decision) && s[i].swapTxHash.value != s[j].swapTxHash.value
  }

  lemma {:induction false} GroupMembers(s: Candidates, decision: string, i: nat)
    ensures i in Indices(Group(s, decision)) <==> Claims(s, i, decision)
    ensures forall k :: 0 <= k < |Group(s, decision)| ==>
              Claims(s, Group(s, decision)[k].index, decision)
              && Group(s, decision)[k] == EntryOf(Group(s, decision)[k].index, s[Group(s, decision)[k].index])
  {
    if s != [] {
      var last := |s| - 1;
      GroupMembers(s[..last], decision, i);
      var (before, after) := (Group(s[..last], decision), Group(s, decision));
      if Claims(s, last, decision) {
        assert after == before + [EntryOf(last, s[last])];
        assert Indices(after) == Indices(before) + [last];
        assert Indices(after)[|before|] == last;
      } else {
        assert after == before;
      }
      assert i != last ==> (i in Indices(after) <==> i in Indices(before));
    }
  }

  lemma {:induction false} GroupAscends(s: Candidates, decision: string)
    ensures forall k, l :: 0 <= k < l < |Group(s, decision)| ==> Group(s, decision)[k].index < Group(s, decision)[l].index
  {
    if s != [] {
      var last := |s| - 1;
      GroupAscends(s[..last], decision);
      GroupMembers(s[..last], decision, 0);
    }
  }

  lemma ContradictedExactly(s: Candidates, decision: string)
    ensures IsContradicted(Group(s, decision)) <==> Contradicted(s, decision)
  {
    var group := Group(s, decision);
    var swaps := Swaps(group);
    SeveralDiffer(swaps);
    GroupMembers(s, decision, 0);
    if k, l :| 0 <= k < |swaps| && 0 <= l < |swaps| && swaps[k] != swaps[l] {
      assert Claims(s, group[k].index, decision) && Claims(s, group[l].index, decision);
    }
    if i: nat, j: nat :| Claims(s, i, decision) && Claims(s, j,
                                                          decision) && s[i].swapTxHash.value != s[j].swapTxHash.value {
      GroupMembers(s, decision, i);
      GroupMembers(s, decision, j);
      var k :| 0 <= k < |group| && Indices(group)[k] == i;
      var l :| 0 <= l < |group| && Indices(group)[l] == j;
      assert swaps[k] != swaps[l];
    }
  }

  lemma {:induction false} DecisionsMembers(s: Candidates, decision: string)
    ensures decision in Decisions(s) <==> exists i: nat :: Claims(s, i, decision)
    ensures forall k, l :: 0 <= k < l < |Decisions(s)| ==> Decisions(s)[k] != Decisions(s)[l]
  {
    if s != [] {
      var last := |s| - 1;
      DecisionsMembers(s[..last], decision);
      if i: nat :| Claims(s, i, decision) && i != last {
        assert Claims(s[..last], i, decision);
      }
      if i: nat :| Claims(s[..last], i, decision) {
        assert Claims(s, i, decision);
      }
      if Claims(s, last, decision) {
        assert decision in Decisions(s);
      }
    }
  }

  function Named(contradictions: seq<Contradiction>): (names: seq<string>)
    ensures |names| == |contradictions|
  {
    seq(|contradictions|, i requires 0 <= i < |contradictions| => contradictions[i].decisionHash)
  }

  lemma AmongNext(s: Candidates, decisions: seq<string>)
    requires decisions != []
    ensures var (front, last) := (decisions[..|decisions| - 1], decisions[|decisions| - 1]);
            var (before, after) := (ContradictionsAmong(s, front), ContradictionsAmong(s, decisions));
            if IsContradicted(Group(s, last))
            then after == before + [ContradictionOf(last, Group(s, last))] && Named(after) == Named(before) + [last]
            else after == before
  {
  }

  lemma {:induction false} AmongMembers(s: Candidates, decisions: seq<string>, decision: string)
    ensures decision in Named(ContradictionsAmong(s, decisions))
       <==> decision in decisions && IsContradicted(Group(s, decision))
    ensures forall c :: c in ContradictionsAmong(s, decisions) ==>
              c == ContradictionOf(c.decisionHash, Group(s, c.decisionHash))
  {
    if decisions != [] {
      AmongNext(s, decisions);
      AmongMembers(s, decisions[..|decisions| - 1], decision);
      assert decisions == decisions[..|decisions| - 1] + [decisions[|decisions| - 1]];
    }
  }

  lemma {:induction false} AmongDistinct(s: Candidates, decisions: seq<string>)
    requires forall k, l :: 0 <= k < l < |decisions| ==> decisions[k] != decisions[l]
    ensures var names := Named(ContradictionsAmong(s, decisions));
            forall k, l :: 0 <= k < l < |names| ==> names[k] != names[l]
  {
    if decisions != [] {
      var (front, last) := (decisions[..|decisions| - 1], decisions[|decisions| - 1]);
      AmongNext(s, decisions);
      AmongDistinct(s, front);
      AmongMembers(s, front, last);
      assert last !in front;
    }
  }

  /** The set is consistent exactly when no decision is claimed for two different swaps, and every contradicted
      decision is reported, once. */
  lemma ReportsContradictions(s: Candidates, decision: string)
    ensures decision in Named(ReportOf(s).contradictions) <==> Contradicted(s, decision)
    ensures var names := Named(ReportOf(s).contradictions);
            forall k, l :: 0 <= k < l < |names| ==> names[k] != names[l]
  {
    DecisionsMembers(s, decision);
    AmongMembers(s, Decisions(s), decision);
    AmongDistinct(s, Decisions(s));
    ContradictedExactly(s, decision);
  }

  lemma ConsistentExactly(s: Candidates)
    ensures ReportOf(s).consistent <==> !exists decision :: Contradicted(s, decision)
  {
    var cs := ReportOf(s).contradictions;
    if cs != [] {
      assert Named(cs)[0] in Named(cs);
      ReportsContradictions(s, Named(cs)[0]);
    }
    if decision :| Contradicted(s, decision) {
      ReportsContradictions(s, decision);
    }
  }

  predicate ClaimsSwap(s: Candidates, i: nat, decision: string, swap: string) {
    Claims(s, i, decision) && s[i].swapTxHash.value == swap
  }

  predicate ClaimedBy(s: Candidates, i: nat, decision: string, attester: string) {
    Claims(s, i, decision) && EntryOf(i, s[i]).attester == attester
  }

  lemma GroupSwaps(s: Candidates, decision: string, swap: string)
    ensures swap in Swaps(Group(s, decision)) <==> exists i: nat :: ClaimsSwap(s, i, decision, swap)
  {
    var group := Group(s, decision);
    GroupMembers(s, decision, 0);
    if k :| 0 <= k < |group| && Swaps(group)[k] == swap {
      assert ClaimsSwap(s, group[k].index, decision, swap);
    }
    if i: nat :| ClaimsSwap(s, i, decision, swap) {
      GroupMembers(s, decision, i);
      var k :| 0 <= k < |group| && Indices(group)[k] == i;
      assert Swaps(group)[k] == swap;
    }
  }

  lemma GroupAttesters(s: Candidates, decision: string, attester: string)
    ensures attester in Attesters(Group(s, decision)) <==> exists i: nat :: ClaimedBy(s, i, decision, attester)
  {
    var group := Group(s, decision);
    GroupMembers(s, decision, 0);
    if k :| 0 <= k < |group| && Attesters(group)[k] == attester {
      assert ClaimedBy(s, group[k].index, decision, attester);
    }
    if i: nat :| ClaimedBy(s, i, decision, attester) {
      GroupMembers(s, decision, i);
      var k :| 0 <= k < |group| && Indices(group)[k] == i;
      assert Attesters(group)[k] == attester;
    }
  }

  ghost predicate NoneTwice<T>(list: seq<T>) {
    forall m, n :: 0 <= m < n < |list| ==> list[m] != list[n]
  }

  /** A reported contradiction lists exactly the verified candidates for its decision, in order, and exactly their
      swaps and their attesters, each once. */
  lemma ContradictionIsComplete(s: Candidates, k: nat, i: nat, text: string)
    requires k < |ReportOf(s).contradictions|
    ensures var c := ReportOf(s).contradictions[k];
      && (i in c.indices <==> Claims(s, i, c.decisionHash))
      && (forall m, n :: 0 <= m < n < |c.indices| ==> c.indices[m] < c.indices[n])
      && (text in c.swapTxHashes <==> exists j: nat :: ClaimsSwap(s, j, c.decisionHash, text))
      && (text in c.attesters <==> exists j: nat :: ClaimedBy(s, j, c.decisionHash, text))
      && NoneTwice(c.swapTxHashes) && NoneTwice(c.attesters)
  {
    var c := ReportOf(s).contradictions[k];
    assert c in ReportOf(s).contradictions;
    AmongMembers(s, Decisions(s), c.decisionHash);
    var group := Group(s, c.decisionHash);
    GroupMembers(s, c.decisionHash, i);
    GroupAscends(s, c.decisionHash);
    GroupSwaps(s, c.decisionHash, text);
    GroupAttesters(s, c.decisionHash, text);
    UniqueMembers(Swaps(group));
    UniqueMembers(Attesters(group));
  }

  /** Every candidate is counted as verified or listed as unverified, never both. */
  lemma {:induction false} EveryCandidateReported(s: Candidates)
    ensures ReportOf(s).verified + |ReportOf(s).unverified| == |s|
    ensures forall k :: 0 <= k < |UnverifiedOf(s)| ==>
              var u := UnverifiedOf(s)[k]; u.index < |s| && !Counted(s[u.index]) && u.reason == s[u.index].reason
    ensures forall k, l :: 0 <= k < l < |UnverifiedOf(s)| ==> UnverifiedOf(s)[k].index < UnverifiedOf(s)[l].index
  {
    if s != [] {
      EveryCandidateReported(s[..|s| - 1]);
    }
  }
}
