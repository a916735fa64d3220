// What can become of an ALLOW before its `validUntil`: prices retrieved later join the consensus, and the
// verdict falls exactly when they disagree with it.
module RwaWindow {
  import opened Lists
  import opened RwaConsensus
  import opened RwaEvaluator
  import opened RwaGuarantees
  import opened RwaOrder
  import opened Sorting
  import opened Wrappers

  /** The report at `t` is an ALLOW, and `later` is inside its window. */
  predicate Within(input: Input, policy: Policy, t: int, later: int) {
    && Accepted(input, policy, t) && Evaluate(input, policy, t).evaluation.verdict.Allow?
    && t <= later < Evaluate(input, policy, t).validUntil
  }

  lemma {:induction false} FilterGrows<T>(f: T -> bool, g: T -> bool, s: seq<T>)
    requires forall x :: x in s && f(x) ==> g(x)
    ensures |Filter(f, s)| <= |Filter(g, s)|
  {
    if s != [] {
      FilterGrows(f, g, s[..|s| - 1]);
    }
  }

  lemma PriceDeadlineBinds(input: Input, policy: Policy, t: int, d: int)
    requires d in PricePushes(Eligible(input, policy, t), policy).deadlines
    ensures Evaluate(input, policy, t).validUntil <= d
  {
    assert d in AllPushes(input, policy, t).deadlines by {
      assert PricePushes(Eligible(input, policy, t), policy) == Parts(input, policy, t)[2];
      PartsJoin(input, policy, t);
    }
    NotAfterDeadlines(input, policy, t, d);
  }

  lemma PriceOutlastsWindow(input: Input, policy: Policy, t: int, o: Price)
    requires o in Eligible(input, policy, t)
    ensures Evaluate(input, policy, t).validUntil <= o.observedAt + policy.maxPriceAgeSeconds
  {
    DeadlineListed(o, input, policy, t);
    PriceDeadlineBinds(input, policy, t, o.observedAt + policy.maxPriceAgeSeconds);
  }

  lemma StaysEligible(input: Input, policy: Policy, t: int, later: int, o: Price)
    requires Within(input, policy, t, later) && o in Eligible(input, policy, t)
    ensures o in Eligible(input, policy, later)
  {
    PriceOutlastsWindow(input, policy, t, o);
    EligibleMember(o, input, policy, t);
    EligibleMember(o, input, policy, later);
  }

  /** Inside the window no price stops counting: the eligible prices are those of `t` and what has arrived. */
  lemma EligibleGrows(input: Input, policy: Policy, t: int, later: int, o: Price)
    requires Within(input, policy, t, later)
    ensures o in Eligible(input, policy, later)
       <==> || o in Eligible(input, policy, t)
            || (PriceRequired(input, policy) && o in input.prices && Arrives(o, input, policy, t, later))
  {
    EligibleMember(o, input, policy, t);
    EligibleMember(o, input, policy, later);
    if o in Eligible(input, policy, t) {
      StaysEligible(input, policy, t, later, o);
    }
  }

  lemma GroupsGrow(before: seq<Price>, after: seq<Price>, policy: Policy)
    requires forall o :: o in before ==> o in after
    ensures |Groups(before, policy)| <= |Groups(after, policy)|
  {
    forall group | group in Groups(before, policy) ensures group in Groups(after, policy) {
      GroupsMember(before, policy, group);
      GroupsMember(after, policy, group);
    }
    assert Groups(after, policy) == Groups(before, policy) + (Groups(after, policy) - Groups(before, policy));
  }

  lemma CoverageGrows(input: Input, policy: Policy, t: int, later: int)
    requires Within(input, policy, t, later)
    ensures |Eligible(input, policy, t)| <= |Eligible(input, policy, later)|
    ensures |Groups(Eligible(input, policy, t), policy)| <= |Groups(Eligible(input, policy, later), policy)|
  {
    forall o | o in Eligible(input, policy, t) ensures o in Eligible(input, policy, later) {
      StaysEligible(input, policy, t, later, o);
    }
    forall o | o in input.prices && Counts(input, policy, t)(o) ensures Counts(input, policy, later)(o) {
      FilterMember(Counts(input, policy, t), input.prices, o);
      FilterMember(Counts(input, policy, later), input.prices, o);
    }
    FilterGrows(Counts(input, policy, t), Counts(input, policy, later), input.prices);
    GroupsGrow(Eligible(input, policy, t), Eligible(input, policy, later), policy);
  }

  lemma MarketAndEvidenceLast(input: Input, policy: Policy, t: int, later: int)
    requires Within(input, policy, t, later)
    ensures MarketPushes(input, policy, later) == MarketPushes(input, policy, t)
    ensures EvidencePushes(KindsOf(input, policy), input, policy, later)
         == EvidencePushes(KindsOf(input, policy), input, policy, t)
  {
    AllowIsQuiet(input, policy, t);
    PartsJoin(input, policy, t);
    forall d | d in AllPushes(input, policy, t).deadlines ensures later < d {
      NotAfterDeadlines(input, policy, t, d);
    }
    MarketLasts(input, policy, t, later);
    EvidenceLasts(KindsOf(input, policy), input, policy, t, later);
  }

  /** Two required eligible prices are too far apart. */
  predicate Disagreement(input: Input, policy: Policy, now: int) {
    PriceRequired(input, policy) && Disagrees(Sort(PriceAtMost, Eligible(input, policy, now)), policy)
  }

  /** Rebuilt inside its window an ALLOW is an ALLOW unless the prices now disagree, and a BLOCK if they do:
      never UNKNOWN. */
  lemma AllowStaysExactly(input: Input, policy: Policy, t: int, later: int)
    requires Within(input, policy, t, later)
    ensures Evaluate(input, policy, later).evaluation.verdict
         == if Disagreement(input, policy, later) then Block else Allow
  {
    MarketAndEvidenceLast(input, policy, t, later);
    CoverageGrows(input, policy, t, later);
    AllowIsQuiet(input, policy, t);
    PartsJoin(input, policy, t);
    PartsJoin(input, policy, later);
    AllowIsQuiet(input, policy, later);
    BlockExactly(input, policy, later);
    if PriceRequired(input, policy) {
      ConsensusQuiet(input, policy, t);
      ConsensusQuiet(input, policy, later);
    }
  }
}
