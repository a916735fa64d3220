// What the verdict and the consensus price stand for: when an evaluation allows, and how far outliers can
// move the price it reports.
module RwaConsensus {
  import opened Lists
  import opened RwaEvaluator
  import opened RwaGuarantees
  import opened RwaOrder
  import opened Sorting
  import opened Wrappers

  // ---------- The median ----------

  function Outside(low: int, high: int): Price -> bool {
    (o: Price) => o.priceE8 < low || o.priceE8 > high
  }

  lemma SortedPrices(eligible: seq<Price>, i: nat, j: nat)
    requires i <= j < |Sort(PriceAtMost, eligible)|
    ensures Sort(PriceAtMost, eligible)[i].priceE8 <= Sort(PriceAtMost, eligible)[j].priceE8
  {
    PriceAtMostIsOrder();
    SortSorted(PriceAtMost, eligible);
  }

  lemma MedianInside(eligible: seq<Price>, low: int, high: int)
    requires eligible != [] && |Filter(Outside(low, high), eligible)| <= (|eligible| - 1) / 2
    ensures Median(Sort(PriceAtMost, eligible)).Some?
    ensures low <= Median(Sort(PriceAtMost, eligible)).value <= high
  {
    var sorted := Sort(PriceAtMost, eligible);
    SortPermutes(PriceAtMost, eligible);
    FilterSize(Outside(low, high), sorted, eligible);
    var middle := |sorted| / 2;
    if sorted[middle].priceE8 < low {
      forall i | 0 <= i < middle + 1 ensures Outside(low, high)(sorted[i]) {
        SortedPrices(eligible, i, middle);
      }
      FilterStretch(Outside(low, high), sorted, 0, middle + 1);
    } else if sorted[middle].priceE8 > high {
      forall i | middle <= i < |sorted| ensures Outside(low, high)(sorted[i]) {
        SortedPrices(eligible, middle, i);
      }
      FilterStretch(Outside(low, high), sorted, middle, |sorted|);
    }
  }

  /** As long as fewer than half of the eligible prices lie outside an interval, the reported price is in it. */
  lemma ConsensusIsRobust(input: Input, policy: Policy, now: int, low: int, high: int)
    requires var eligible := Eligible(input, policy, now);
             eligible != [] && |Filter(Outside(low, high), eligible)| <= (|eligible| - 1) / 2
    ensures var price := Evaluate(input, policy, now).evaluation.consensusPriceE8;
            price.Some? && low <= price.value <= high
  {
    MedianInside(Eligible(input, policy, now), low, high);
  }

  // ---------- The spread ----------

  /** Two eligible prices further apart than the policy allows, measured against the reported price. */
  predicate FarApart(a: Price, b: Price, median: nat, policy: Policy) {
    (a.priceE8 - b.priceE8) * 10000 > median * policy.maxSpreadBps
  }

  lemma SortMember(eligible: seq<Price>, o: Price)
    ensures o in eligible <==> o in Sort(PriceAtMost, eligible)
  {
    SortPermutes(PriceAtMost, eligible);
    SameMembers(eligible, Sort(PriceAtMost, eligible), o);
  }

  /** The spread is that of the extreme prices. */
  lemma ExtremesFarApart(eligible: seq<Price>, policy: Policy)
    requires Disagrees(Sort(PriceAtMost, eligible), policy)
    ensures exists a, b :: a in eligible && b in eligible
                           && FarApart(a, b, Median(Sort(PriceAtMost, eligible)).value, policy)
  {
    var sorted := Sort(PriceAtMost, eligible);
    SortMember(eligible, sorted[0]);
    SortMember(eligible, sorted[|sorted| - 1]);
    assert FarApart(sorted[|sorted| - 1], sorted[0], sorted[|sorted| / 2].priceE8, policy);
  }

  lemma WithinExtremes(eligible: seq<Price>, o: Price)
    requires o in eligible
    ensures var sorted := Sort(PriceAtMost, eligible);
      sorted != [] && sorted[0].priceE8 <= o.priceE8 <= sorted[|sorted| - 1].priceE8
  {
    var sorted := Sort(PriceAtMost, eligible);
    SortMember(eligible, o);
    var i :| 0 <= i < |sorted| && sorted[i] == o;
    SortedPrices(eligible, 0, i);
    SortedPrices(eligible, i, |sorted| - 1);
  }

  lemma DisagreesExactly(eligible: seq<Price>, policy: Policy)
    requires eligible != []
    ensures Median(Sort(PriceAtMost, eligible)).Some?
    ensures Disagrees(Sort(PriceAtMost, eligible), policy)
       <==> exists a, b :: a in eligible && b in eligible
                           && FarApart(a, b, Median(Sort(PriceAtMost, eligible)).value, policy)
  {
    var sorted := Sort(PriceAtMost, eligible);
    SortPermutes(PriceAtMost, eligible);
    if Disagrees(sorted, policy) {
      ExtremesFarApart(eligible, policy);
    }
    if a, b :| a in eligible && b in eligible && FarApart(a, b, sorted[|sorted| / 2].priceE8, policy) {
      WithinExtremes(eligible, a);
      WithinExtremes(eligible, b);
    }
  }

  // ---------- What each reason means ----------

  predicate Says(p: Pushes, reason: Reason) {
    reason in p.blocked || reason in p.reasons
  }

  lemma SaysJoin(a: Pushes, b: Pushes, reason: Reason)
    ensures Says(Join(a, b), reason) <==> Says(a, reason) || Says(b, reason)
  {
  }

  /** What a usable market state says against the action, and what it leaves open. */
  predicate StateForbids(m: Market, rule: Rule, basis: PriceBasis, reason: Reason) {
    match reason
    case SessionNotAllowed => !m.session.UnknownSession? && m.session !in rule.allowedSessions
    case ClosedRequiresTokenMarketPrice => m.session.Closed? && !basis.TokenMarket?
    case InstrumentHalted => m.halt.Halted?
    case CorporateActionPending => m.corporateAction.PendingAction?
    case _ => false
  }

  predicate StateLeavesOpen(m: Market, reason: Reason) {
    match reason
    case MarketSessionUnknown => m.session.UnknownSession?
    case HaltStatusUnknown => m.halt.UnknownHalt?
    case CorporateActionUnknown => m.corporateAction.UnknownAction?
    case _ => false
  }

  /** When a market finding is due: only for a required price, and all but the first only on a usable state. */
  predicate MarketReason(input: Input, policy: Policy, now: int, reason: Reason) {
    PriceRequired(input, policy) &&
    if MarketUsable(input, policy, now) then
      || StateForbids(input.market.value, RuleOf(input, policy).value, input.instrument.priceBasis, reason)
      || StateLeavesOpen(input.market.value, reason)
    else reason.MarketEvidenceUnavailable?
  }

  predicate ConsensusReason(input: Input, policy: Policy, now: int, reason: Reason) {
    var eligible := Eligible(input, policy, now);
    PriceRequired(input, policy) &&
    match reason
    case PriceDisagreement => Disagrees(Sort(PriceAtMost, eligible), policy)
    case InsufficientPriceCoverage => |eligible| < policy.minProviders
    case InsufficientIndependence => |Groups(eligible, policy)| < policy.minIndependentGroups
    case _ => false
  }

  /** Exactly one piece of that kind, and usable. */
  predicate EvidenceAvailable(kind: Kind, input: Input, policy: Policy, now: int) {
    var found := Filter(OfKind(kind), input.evidence);
    |found| == 1 && EvidenceUsable(found[0], kind, input, policy, now)
  }

  predicate EvidenceBlocks(kind: Kind, input: Input, policy: Policy, now: int) {
    EvidenceAvailable(kind, input, policy, now) && Filter(OfKind(kind), input.evidence)[0].status.Blocked?
  }

  /** When an evidence finding is due: a required piece is not usable, or it is usable and says no. */
  predicate EvidenceReason(kinds: seq<Kind>, input: Input, policy: Policy, now: int, reason: Reason) {
    match reason
    case EvidenceUnavailable(kind) => kind in kinds && !EvidenceAvailable(kind, input, policy, now)
    case EvidenceBlocked(kind) => kind in kinds && EvidenceBlocks(kind, input, policy, now)
    case _ => false
  }

  predicate ReasonHolds(input: Input, policy: Policy, now: int, reason: Reason) {
    || (reason.ActionNotAllowed? && RuleOf(input, policy).None?)
    || MarketReason(input, policy, now, reason) || ConsensusReason(input, policy, now, reason)
    || EvidenceReason(KindsOf(input, policy), input, policy, now, reason)
  }

  lemma {:induction false} EvidenceSays(kinds: seq<Kind>, input: Input, policy: Policy, now: int, reason: Reason)
    ensures Says(EvidencePushes(kinds, input, policy, now), reason)
       <==> EvidenceReason(kinds, input, policy, now, reason)
  {
    if kinds != [] {
      var (front, last) := (kinds[..|kinds| - 1], kinds[|kinds| - 1]);
      assert forall kind :: kind in kinds <==> kind in front || kind == last;
      EvidenceSays(front, input, policy, now, reason);
      SaysJoin(EvidencePushes(front, input, policy, now), KindPushes(last, input, policy, now), reason);
    }
  }

  lemma WhenFour(reason: Reason, a: bool, ra: Reason, b: bool, rb: Reason, c: bool, rc: Reason, d: bool, rd: Reason)
    ensures reason in When(a, ra) + When(b, rb) + When(c, rc) + When(d, rd)
       <==> (a && reason == ra) || (b && reason == rb) || (c && reason == rc) || (d && reason == rd)
  {
  }

  lemma WhenThree(reason: Reason, a: bool, ra: Reason, b: bool, rb: Reason, c: bool, rc: Reason)
    ensures reason in When(a, ra) + When(b, rb) + When(c, rc)
       <==> (a && reason == ra) || (b && reason == rb) || (c && reason == rc)
  {
  }

  lemma StateBlockedExactly(m: Market, rule: Rule, basis: PriceBasis, reason: Reason)
    ensures reason in StateBlocked(m, rule, basis) <==> StateForbids(m, rule, basis, reason)
  {
    WhenFour(reason, !m.session.UnknownSession? && m.session !in rule.allowedSessions, SessionNotAllowed,
             m.session.Closed? && !basis.TokenMarket?, ClosedRequiresTokenMarketPrice,
             m.halt.Halted?, InstrumentHalted, m.corporateAction.PendingAction?, CorporateActionPending);
  }

  lemma StateReasonsExactly(m: Market, reason: Reason)
    ensures reason in StateReasons(m) <==> StateLeavesOpen(m, reason)
  {
    WhenThree(reason, m.session.UnknownSession?, MarketSessionUnknown, m.halt.UnknownHalt?, HaltStatusUnknown,
              m.corporateAction.UnknownAction?, CorporateActionUnknown);
  }

  lemma MarketSays(input: Input, policy: Policy, now: int, reason: Reason)
    ensures Says(MarketPushes(input, policy, now), reason) <==> MarketReason(input, policy, now, reason)
  {
    if PriceRequired(input, policy) && MarketUsable(input, policy, now) {
      StateBlockedExactly(input.market.value, RuleOf(input, policy).value, input.instrument.priceBasis, reason);
      StateReasonsExactly(input.market.value, reason);
    }
  }

  lemma PushesSay(sorted: seq<Price>, groups: set<string>, input: Input, policy: Policy, reason: Reason)
    ensures Says(ConsensusPushes(sorted, groups, input, policy), reason)
       <==> PriceRequired(input, policy) &&
            match reason
            case PriceDisagreement => Disagrees(sorted, policy)
            case InsufficientPriceCoverage => |sorted| < policy.minProviders
            case InsufficientIndependence => |groups| < policy.minIndependentGroups
            case _ => false
  {
  }

  lemma ConsensusSays(input: Input, policy: Policy, now: int, reason: Reason)
    ensures Says(Parts(input, policy, now)[3], reason) <==> ConsensusReason(input, policy, now, reason)
  {
    var eligible := Eligible(input, policy, now);
    SortPermutes(PriceAtMost, eligible);
    PushesSay(Sort(PriceAtMost, eligible), Groups(eligible, policy), input, policy, reason);
  }

  lemma ReasonsSay(input: Input, policy: Policy, now: int, reason: Reason)
    ensures reason in Evaluate(input, policy, now).evaluation.reasons
       <==> Says(AllPushes(input, policy, now), reason)
  {
    var all := AllPushes(input, policy, now);
    var reasons := all.blocked + all.reasons;
    SortPermutes(ReasonAtMost, reasons);
    SameMembers(reasons, Sort(ReasonAtMost, reasons), reason);
  }

  /** The report gives a reason exactly when it holds. */
  lemma ReasonsExactly(input: Input, policy: Policy, now: int, reason: Reason)
    ensures reason in Evaluate(input, policy, now).evaluation.reasons <==> ReasonHolds(input, policy, now, reason)
  {
    var parts := Parts(input, policy, now);
    ReasonsSay(input, policy, now, reason);
    MarketSays(input, policy, now, reason);
    ConsensusSays(input, policy, now, reason);
    EvidenceSays(KindsOf(input, policy), input, policy, now, reason);
    SaysJoin(parts[0], parts[1], reason);
    SaysJoin(Join(parts[0], parts[1]), parts[2], reason);
    SaysJoin(Join(Join(parts[0], parts[1]), parts[2]), parts[3], reason);
    SaysJoin(Join(Join(Join(parts[0], parts[1]), parts[2]), parts[3]), parts[4], reason);
  }

  lemma ConsensusPrice(input: Input, policy: Policy, now: int)
    ensures Evaluate(input, policy, now).evaluation.consensusPriceE8
         == Median(Sort(PriceAtMost, Eligible(input, policy, now)))
  {
  }

  lemma DisagreementReason(input: Input, policy: Policy, now: int)
    ensures PriceDisagreement in Evaluate(input, policy, now).evaluation.reasons
       <==> PriceRequired(input, policy) && Disagrees(Sort(PriceAtMost, Eligible(input, policy, now)), policy)
  {
    ReasonsExactly(input, policy, now, PriceDisagreement);
  }

  /** PRICE_DISAGREEMENT is reported exactly when two eligible prices are too far apart; without it, every
      pair of them differs by at most the policy's share of the reported price. */
  lemma DisagreementExactly(input: Input, policy: Policy, now: int)
    requires PriceRequired(input, policy) && Eligible(input, policy, now) != []
    ensures Evaluate(input, policy, now).evaluation.consensusPriceE8.Some?
    ensures PriceDisagreement in Evaluate(input, policy, now).evaluation.reasons
       <==> exists a, b ::
              && a in Eligible(input, policy, now) && b in Eligible(input, policy, now)
              && FarApart(a, b, Evaluate(input, policy, now).evaluation.consensusPriceE8.value, policy)
  {
    ConsensusPrice(input, policy, now);
    DisagreesExactly(Eligible(input, policy, now), policy);
    DisagreementReason(input, policy, now);
  }

  // ---------- When an evaluation allows ----------

  predicate MarketClear(input: Input, policy: Policy, now: int) {
    MarketUsable(input, policy, now) && RuleOf(input, policy).Some? &&
    var (m, rule) := (input.market.value, RuleOf(input, policy).value);
    && !m.session.UnknownSession? && m.session in rule.allowedSessions
    && (m.session.Closed? ==> input.instrument.priceBasis.TokenMarket?)
    && m.halt.NoHalt? && m.corporateAction.NoAction?
  }

  predicate EvidenceClear(kind: Kind, input: Input, policy: Policy, now: int) {
    EvidenceAvailable(kind, input, policy, now) && Filter(OfKind(kind), input.evidence)[0].status.Ok?
  }

  predicate Covered(input: Input, policy: Policy, now: int) {
    var eligible := Eligible(input, policy, now);
    && |eligible| >= policy.minProviders && |Groups(eligible, policy)| >= policy.minIndependentGroups
    && !Disagrees(Sort(PriceAtMost, eligible), policy)
  }

  lemma MarketQuiet(input: Input, policy: Policy, now: int)
    requires PriceRequired(input, policy)
    ensures Quiet(MarketPushes(input, policy, now)) <==> MarketClear(input, policy, now)
  {
  }

  lemma KindQuiet(kind: Kind, input: Input, policy: Policy, now: int)
    ensures Quiet(KindPushes(kind, input, policy, now)) <==> EvidenceClear(kind, input, policy, now)
  {
  }

  predicate AllClear(kinds: seq<Kind>, input: Input, policy: Policy, now: int) {
    forall kind :: kind in kinds ==> EvidenceClear(kind, input, policy, now)
  }

  lemma AllClearSnoc(kinds: seq<Kind>, kind: Kind, input: Input, policy: Policy, now: int)
    ensures AllClear(kinds + [kind], input, policy, now)
       <==> AllClear(kinds, input, policy, now) && EvidenceClear(kind, input, policy, now)
  {
    assert kind in kinds + [kind];
    assert forall k :: k in kinds ==> k in kinds + [kind];
  }

  lemma {:induction false} EvidenceQuiet(kinds: seq<Kind>, input: Input, policy: Policy, now: int)
    ensures Quiet(EvidencePushes(kinds, input, policy, now)) <==> AllClear(kinds, input, policy, now)
  {
    if kinds != [] {
      var (front, last) := (kinds[..|kinds| - 1], kinds[|kinds| - 1]);
      assert kinds == front + [last];
      EvidenceQuiet(front, input, policy, now);
      KindQuiet(last, input, policy, now);
      QuietJoin(EvidencePushes(front, input, policy, now), KindPushes(last, input, policy, now));
      AllClearSnoc(front, last, input, policy, now);
    }
  }

  lemma ConsensusQuiet(input: Input, policy: Policy, now: int)
    requires PriceRequired(input, policy)
    ensures Quiet(Parts(input, policy, now)[3]) <==> Covered(input, policy, now)
  {
    SortPermutes(PriceAtMost, Eligible(input, policy, now));
  }

  /** An evaluation allows exactly when the policy has a rule for the action, every required piece of evidence
      is there and good, and, where a price is required, the market is clear and the prices cover it. */
  lemma AllowExactly(input: Input, policy: Policy, now: int)
    ensures Evaluate(input, policy, now).evaluation.verdict.Allow?
       <==> && RuleOf(input, policy).Some?
            && (PriceRequired(input, policy) ==> MarketClear(input, policy, now) && Covered(input, policy, now))
            && AllClear(KindsOf(input, policy), input, policy, now)
  {
    AllowIsQuiet(input, policy, now);
    PartsJoin(input, policy, now);
    EvidenceQuiet(KindsOf(input, policy), input, policy, now);
    if PriceRequired(input, policy) {
      MarketQuiet(input, policy, now);
      ConsensusQuiet(input, policy, now);
    }
  }

  // ---------- When an evaluation blocks ----------

  /** A usable market state that speaks against the action, rather than being silent about it. */
  predicate MarketBlocks(input: Input, policy: Policy, now: int) {
    MarketUsable(input, policy, now) && RuleOf(input, policy).Some? &&
    var (m, rule) := (input.market.value, RuleOf(input, policy).value);
    || (!m.session.UnknownSession? && m.session !in rule.allowedSessions)
    || (m.session.Closed? && !input.instrument.priceBasis.TokenMarket?)
    || m.halt.Halted? || m.corporateAction.PendingAction?
  }

  predicate NoneBlocks(kinds: seq<Kind>, input: Input, policy: Policy, now: int) {
    forall kind :: kind in kinds ==> !EvidenceBlocks(kind, input, policy, now)
  }

  lemma NoneBlocksSnoc(kinds: seq<Kind>, kind: Kind, input: Input, policy: Policy, now: int)
    ensures NoneBlocks(kinds + [kind], input, policy, now)
       <==> NoneBlocks(kinds, input, policy, now) && !EvidenceBlocks(kind, input, policy, now)
  {
    assert kind in kinds + [kind];
    assert forall k :: k in kinds ==> k in kinds + [kind];
  }

  lemma {:induction false} EvidenceUnblocked(kinds: seq<Kind>, input: Input, policy: Policy, now: int)
    ensures EvidencePushes(kinds, input, policy, now).blocked == [] <==> NoneBlocks(kinds, input, policy, now)
  {
    if kinds != [] {
      var (front, last) := (kinds[..|kinds| - 1], kinds[|kinds| - 1]);
      assert kinds == front + [last];
      EvidenceUnblocked(front, input, policy, now);
      NoneBlocksSnoc(front, last, input, policy, now);
    }
  }

  lemma MarketUnblocked(input: Input, policy: Policy, now: int)
    requires PriceRequired(input, policy)
    ensures MarketPushes(input, policy, now).blocked == [] <==> !MarketBlocks(input, policy, now)
  {
  }

  lemma PartsUnblocked(input: Input, policy: Policy, now: int)
    ensures AllPushes(input, policy, now).blocked == []
       <==> && Parts(input, policy, now)[0].blocked == [] && Parts(input, policy, now)[1].blocked == []
            && Parts(input, policy, now)[2].blocked == [] && Parts(input, policy, now)[3].blocked == []
            && Parts(input, policy, now)[4].blocked == []
  {
    var parts := Parts(input, policy, now);
    assert AllPushes(input, policy, now).blocked
        == parts[0].blocked + parts[1].blocked + parts[2].blocked + parts[3].blocked + parts[4].blocked;
  }

  /** An evaluation blocks exactly when there is no rule for the action, usable required evidence says so, or,
      where a price is required, a usable market state or a disagreement does. In every other case that is
      not an ALLOW it only does not know. */
  lemma BlockExactly(input: Input, policy: Policy, now: int)
    ensures Evaluate(input, policy, now).evaluation.verdict.Block?
       <==> || RuleOf(input, policy).None?
            || !NoneBlocks(KindsOf(input, policy), input, policy, now)
            || (PriceRequired(input, policy)
                && (MarketBlocks(input, policy, now)
                    || Disagrees(Sort(PriceAtMost, Eligible(input, policy, now)), policy)))
  {
    StartsWithTtl(input, policy, now);
    PartsUnblocked(input, policy, now);
    EvidenceUnblocked(KindsOf(input, policy), input, policy, now);
    if PriceRequired(input, policy) {
      MarketUnblocked(input, policy, now);
    }
  }

  // ---------- What a report lists ----------

  /** When a price has a failure. */
  predicate HasFailure(o: Price, failure: Failure, input: Input, policy: Policy, now: int) {
    var f := FeedOf(policy, o.feedId);
    match failure
    case FeedNotAdmitted => f.None?
    case DuplicateFeed => |Filter(SameFeed(o.feedId), input.prices)| != 1
    case PriceSemanticsMismatch => SemanticsDiffer(o, input, f)
    case PriceSessionMismatch => SessionDiffers(o, input)
    case PriceStaleOrFuture => StaleOrFuture(o, policy, now)
    case PriceInvalid => o.priceE8 == 0
  }

  predicate Raises(flag: Flag, failure: Failure) {
    flag.raised && flag.failure == failure
  }

  lemma InSix<T>(x: T, a: seq<T>, b: seq<T>, c: seq<T>, d: seq<T>, e: seq<T>, f: seq<T>)
    ensures x in a + b + c + d + e + f <==> x in a || x in b || x in c || x in d || x in e || x in f
  {
  }

  lemma RaisedMembers(a: Flag, b: Flag, c: Flag, d: Flag, e: Flag, f: Flag, failure: Failure)
    ensures failure in Raised([a, b, c, d, e, f])
       <==> || Raises(a, failure) || Raises(b, failure) || Raises(c, failure)
            || Raises(d, failure) || Raises(e, failure) || Raises(f, failure)
  {
    RaisedSix(a, b, c, d, e, f);
    InSix(failure, Pick(a.raised, a.failure), Pick(b.raised, b.failure), Pick(c.raised, c.failure),
          Pick(d.raised, d.failure), Pick(e.raised, e.failure), Pick(f.raised, f.failure));
  }

  lemma FailuresExactly(o: Price, failure: Failure, input: Input, policy: Policy, now: int)
    ensures failure in FailuresOf(o, input, policy, now) <==> HasFailure(o, failure, input, policy, now)
  {
    var f := FeedOf(policy, o.feedId);
    RaisedMembers(
      Flag(f.None?, FeedNotAdmitted), Flag(|Filter(SameFeed(o.feedId), input.prices)| != 1, DuplicateFeed),
      Flag(SemanticsDiffer(o, input, f), PriceSemanticsMismatch), Flag(SessionDiffers(o, input), PriceSessionMismatch),
      Flag(StaleOrFuture(o, policy, now), PriceStaleOrFuture), Flag(o.priceE8 <= 0, PriceInvalid), failure);
  }

  /** The report excludes exactly the prices with a failure, each with its own failures. */
  lemma ExcludedExactly(e: Excluded, input: Input, policy: Policy, now: int)
    ensures e in Evaluate(input, policy, now).evaluation.excluded
       <==> exists o :: o in input.prices && Fails(input, policy, now)(o) && Exclusion(input, policy, now)(o) == e
  {
    var failing := Filter(Fails(input, policy, now), input.prices);
    SortPermutes(FeedAtMost, ExcludedOf(input, policy, now));
    SameMembers(ExcludedOf(input, policy, now), Sort(FeedAtMost, ExcludedOf(input, policy, now)), e);
    MapMember(Exclusion(input, policy, now), failing, e);
    forall o ensures o in failing <==> o in input.prices && Fails(input, policy, now)(o) {
      FilterMember(Fails(input, policy, now), input.prices, o);
    }
  }
}
