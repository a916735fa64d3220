// An evaluation restated on the fields of its input: which statements, market states and prices it uses, what each
// reason says, when it allows, and until when.
module RwaFields {
  import opened Lists
  import opened RwaConsensus
  import opened RwaEvaluator
  import opened RwaGuarantees
  import opened RwaOrder
  import opened RwaSamples
  import opened Sorting
  import opened Wrappers
  import JsStrings

  // ---------- The only one ----------

  lemma {:induction false} FilterOne<T>(f: T -> bool, s: seq<T>, i: nat)
    requires i < |s| && f(s[i]) && forall j :: 0 <= j < |s| && j != i ==> !f(s[j])
    ensures Filter(f, s) == [s[i]]
  {
    var front := s[..|s| - 1];
    if i == |front| {
      FilterNone(f, front);
    } else {
      FilterOne(f, front, i);
    }
  }

  lemma {:induction false} OneFiltered<T>(f: T -> bool, s: seq<T>) returns (i: nat)
    requires |Filter(f, s)| == 1
    ensures i < |s| && Filter(f, s) == [s[i]] && f(s[i]) && forall j :: 0 <= j < |s| && j != i ==> !f(s[j])
  {
    var (front, last) := (s[..|s| - 1], s[|s| - 1]);
    if f(last) {
      i := |front|;
      forall j | 0 <= j < |front| ensures !f(s[j]) {
        FilterMember(f, front, front[j]);
      }
    } else {
      i := OneFiltered(f, front);
      assert forall j :: 0 <= j < |front| ==> front[j] == s[j];
    }
  }

  // ---------- Evidence ----------

  /** Seen, still valid, and not too old. */
  predicate Current(observedAt: int, validUntil: int, now: int, age: int) {
    1 <= observedAt <= now < validUntil < 0x20_0000_0000_0000 && now < observedAt + age
  }

  lemma FreshIsCurrent(observedAt: int, validUntil: int, now: int, age: int)
    ensures Fresh(observedAt, validUntil, now, age) <==> Current(observedAt, validUntil, now, age)
  {
  }

  /** Eligibility is about the caller, reserve and redemption are about the instrument. */
  predicate About(e: Evidence, input: Input) {
    && e.instrumentId == IdOf(input.instrument)
    && match e.kind
       case Eligibility => e.subject == Holder(input.request.from)
       case Reserve => e.subject == OfInstrument(IdOf(input.instrument))
       case Redemption => e.subject == OfInstrument(IdOf(input.instrument))
  }

  /** The statement with this index is the only one of its kind, by an admitted source, about the right subject, and
      current. */
  predicate Holds(i: nat, input: Input, policy: Policy, now: int)
    requires i < |input.evidence|
  {
    var e := input.evidence[i];
    && (forall j :: 0 <= j < |input.evidence| && j != i ==> input.evidence[j].kind != e.kind)
    && About(e, input) && e.source in policy.evidenceSources(e.kind)
    && Current(e.observedAt, e.validUntil, now, policy.maxStateAgeSeconds)
  }

  predicate Stated(kind: Kind, status: EvidenceStatus, input: Input, policy: Policy, now: int) {
    exists i :: 0 <= i < |input.evidence| && Holds(i, input, policy, now)
                && input.evidence[i].kind == kind && input.evidence[i].status == status
  }

  lemma UsableHolds(i: nat, input: Input, policy: Policy, now: int)
    requires i < |input.evidence|
    requires forall j :: 0 <= j < |input.evidence| && j != i ==> input.evidence[j].kind != input.evidence[i].kind
    ensures var e := input.evidence[i];
      EvidenceUsable(e, e.kind, input, policy, now) <==> Holds(i, input, policy, now) && !e.status.UnknownStatus?
  {
    var e := input.evidence[i];
    FreshIsCurrent(e.observedAt, e.validUntil, now, policy.maxStateAgeSeconds);
  }

  /** Evidence of a kind is there exactly when its only statement stands and says yes or no. */
  lemma AvailableIsStated(kind: Kind, input: Input, policy: Policy, now: int)
    ensures EvidenceClear(kind, input, policy, now) <==> Stated(kind, Ok, input, policy, now)
    ensures EvidenceBlocks(kind, input, policy, now) <==> Stated(kind, Blocked, input, policy, now)
    ensures EvidenceAvailable(kind, input, policy, now)
       <==> Stated(kind, Ok, input, policy, now) || Stated(kind, Blocked, input, policy, now)
  {
    var found := Filter(OfKind(kind), input.evidence);
    if |found| == 1 {
      var i := OneFiltered(OfKind(kind), input.evidence);
      UsableHolds(i, input, policy, now);
    }
    forall i | 0 <= i < |input.evidence| && Holds(i, input, policy, now) && input.evidence[i].kind == kind
      ensures found == [input.evidence[i]]
    {
      FilterOne(OfKind(kind), input.evidence, i);
    }
  }

  /** The rule of the policy for the action asks for this kind of evidence. */
  predicate Asked(kind: Kind, input: Input, policy: Policy) {
    && input.request.action in policy.actions
    && kind in policy.actions[input.request.action].requiredEvidence
  }

  lemma EvidenceHolds(kind: Kind, input: Input, policy: Policy, now: int)
    ensures ReasonHolds(input, policy, now, EvidenceUnavailable(kind))
       <==> Asked(kind, input, policy) && !EvidenceAvailable(kind, input, policy, now)
    ensures ReasonHolds(input, policy, now, EvidenceBlocked(kind))
       <==> Asked(kind, input, policy) && EvidenceBlocks(kind, input, policy, now)
  {
  }

  /** The evidence reasons: unavailable when no such statement says yes or no, blocked when it says no. */
  lemma EvidenceReasons(kind: Kind, input: Input, policy: Policy, now: int)
    ensures EvidenceUnavailable(kind) in Evaluate(input, policy, now).evaluation.reasons
       <==> && Asked(kind, input, policy)
            && !Stated(kind, Ok, input, policy, now) && !Stated(kind, Blocked, input, policy, now)
    ensures EvidenceBlocked(kind) in Evaluate(input, policy, now).evaluation.reasons
       <==> Asked(kind, input, policy) && Stated(kind, Blocked, input, policy, now)
  {
    AvailableIsStated(kind, input, policy, now);
    EvidenceHolds(kind, input, policy, now);
    ReasonsExactly(input, policy, now, EvidenceUnavailable(kind));
    ReasonsExactly(input, policy, now, EvidenceBlocked(kind));
  }

  // ---------- The market ----------

  predicate PriceAsked(input: Input, policy: Policy) {
    input.request.action in policy.actions && policy.actions[input.request.action].priceRequired
  }

  /** A state of the instrument's venue by an admitted source. */
  predicate MarketStands(input: Input, policy: Policy, now: int) {
    match input.market
    case None => false
    case Some(m) =>
      && m.instrumentId == IdOf(input.instrument) && m.mic == input.instrument.venueMic
      && m.source in policy.stateSources
      && Current(m.observedAt, m.validUntil, now, policy.maxStateAgeSeconds)
  }

  lemma UsableMarketStands(input: Input, policy: Policy, now: int)
    ensures PriceRequired(input, policy) <==> PriceAsked(input, policy)
    ensures MarketUsable(input, policy, now) <==> MarketStands(input, policy, now)
  {
    if input.market.Some? {
      var m := input.market.value;
      FreshIsCurrent(m.observedAt, m.validUntil, now, policy.maxStateAgeSeconds);
    }
  }

  /** What a standing market state says. */
  predicate MarketSaid(m: Market, rule: Rule, basis: PriceBasis, reason: Reason) {
    || (reason == MarketSessionUnknown && m.session == UnknownSession)
    || (reason == SessionNotAllowed && m.session != UnknownSession && m.session !in rule.allowedSessions)
    || (reason == ClosedRequiresTokenMarketPrice && m.session == Closed && basis != TokenMarket)
    || (reason == InstrumentHalted && m.halt == Halted)
    || (reason == HaltStatusUnknown && m.halt == UnknownHalt)
    || (reason == CorporateActionPending && m.corporateAction == PendingAction)
    || (reason == CorporateActionUnknown && m.corporateAction == UnknownAction)
  }

  predicate OfMarket(reason: Reason) {
    match reason
    case MarketEvidenceUnavailable => true
    case MarketSessionUnknown => true
    case SessionNotAllowed => true
    case ClosedRequiresTokenMarketPrice => true
    case InstrumentHalted => true
    case HaltStatusUnknown => true
    case CorporateActionPending => true
    case CorporateActionUnknown => true
    case _ => false
  }

  lemma MarketSays(m: Market, rule: Rule, basis: PriceBasis, reason: Reason)
    ensures MarketSaid(m, rule, basis, reason)
       <==> StateForbids(m, rule, basis, reason) || StateLeavesOpen(m, reason)
  {
  }

  lemma MarketHolds(reason: Reason, input: Input, policy: Policy, now: int)
    requires OfMarket(reason)
    ensures ReasonHolds(input, policy, now, reason) <==> MarketReason(input, policy, now, reason)
  {
  }

  lemma MarketReasonOnFields(reason: Reason, input: Input, policy: Policy, now: int)
    ensures MarketReason(input, policy, now, reason)
       <==> PriceAsked(input, policy) &&
            if MarketStands(input, policy, now) then
              MarketSaid(input.market.value, policy.actions[input.request.action], input.instrument.priceBasis, reason)
            else reason == MarketEvidenceUnavailable
  {
    UsableMarketStands(input, policy, now);
    if PriceAsked(input, policy) && MarketStands(input, policy, now) {
      MarketSays(input.market.value, policy.actions[input.request.action], input.instrument.priceBasis, reason);
    }
  }

  /** The market reasons, all of them only where the rule requires a price. */
  lemma MarketReasons(reason: Reason, input: Input, policy: Policy, now: int)
    requires OfMarket(reason)
    ensures reason in Evaluate(input, policy, now).evaluation.reasons
       <==> PriceAsked(input, policy) &&
            if MarketStands(input, policy, now) then
              MarketSaid(input.market.value, policy.actions[input.request.action], input.instrument.priceBasis, reason)
            else reason == MarketEvidenceUnavailable
  {
    MarketReasonOnFields(reason, input, policy, now);
    MarketHolds(reason, input, policy, now);
    ReasonsExactly(input, policy, now, reason);
  }

  lemma ActionHolds(input: Input, policy: Policy, now: int)
    ensures ReasonHolds(input, policy, now, ActionNotAllowed) <==> input.request.action !in policy.actions
  {
  }

  /** An action without a rule is the one finding that no input can cure. */
  lemma ActionReason(input: Input, policy: Policy, now: int)
    ensures ActionNotAllowed in Evaluate(input, policy, now).evaluation.reasons
       <==> input.request.action !in policy.actions
  {
    ActionHolds(input, policy, now);
    ReasonsExactly(input, policy, now, ActionNotAllowed);
  }

  // ---------- Prices ----------

  /** The price with this index is the only one of its feed. */
  predicate OnlyOfFeed(i: nat, prices: seq<Price>)
    requires i < |prices|
  {
    forall j :: 0 <= j < |prices| && j != i ==> prices[j].feedId != prices[i].feedId
  }

  lemma OnlyOfFeedExactly(i: nat, prices: seq<Price>)
    requires i < |prices|
    ensures |Filter(SameFeed(prices[i].feedId), prices)| == 1 <==> OnlyOfFeed(i, prices)
  {
    if OnlyOfFeed(i, prices) {
      FilterOne(SameFeed(prices[i].feedId), prices, i);
    }
    if |Filter(SameFeed(prices[i].feedId), prices)| == 1 {
      var k := OneFiltered(SameFeed(prices[i].feedId), prices);
    }
  }

  /** A price says what the instrument is priced in, on the chain of its feed. */
  predicate SameTerms(o: Price, input: Input, policy: Policy) {
    && o.instrumentId == IdOf(input.instrument) && o.currency == input.instrument.currency
    && o.priceBasis == input.instrument.priceBasis
    && o.corporateActionVersion == input.instrument.corporateActionVersion
    && o.feedId in policy.feeds && o.evidenceChainId == policy.feeds[o.feedId].evidenceChainId
  }

  predicate SameSession(o: Price, input: Input) {
    o.session != UnknownSession && match input.market case None => false case Some(m) => o.session == m.session
  }

  predicate InTime(o: Price, policy: Policy, now: int) {
    && 1 <= o.observedAt <= o.retrievedAt <= now && o.retrievedAt < 0x20_0000_0000_0000
    && now < o.observedAt + policy.maxPriceAgeSeconds
  }

  /** When a price has a failure, whatever its feed. */
  predicate Fault(i: nat, failure: Failure, input: Input, policy: Policy, now: int)
    requires i < |input.prices|
  {
    var o := input.prices[i];
    match failure
    case FeedNotAdmitted => o.feedId !in policy.feeds
    case DuplicateFeed => !OnlyOfFeed(i, input.prices)
    case PriceSemanticsMismatch => !SameTerms(o, input, policy)
    case PriceSessionMismatch => !SameSession(o, input)
    case PriceStaleOrFuture => !InTime(o, policy, now)
    case PriceInvalid => o.priceE8 == 0
  }

  lemma FaultsExactly(i: nat, failure: Failure, input: Input, policy: Policy, now: int)
    requires i < |input.prices|
    ensures failure in FailuresOf(input.prices[i], input, policy, now) <==> Fault(i, failure, input, policy, now)
  {
    FailuresExactly(input.prices[i], failure, input, policy, now);
    OnlyOfFeedExactly(i, input.prices);
  }

  predicate Sound(i: nat, input: Input, policy: Policy, now: int)
    requires i < |input.prices|
  {
    var o := input.prices[i];
    && OnlyOfFeed(i, input.prices) && SameTerms(o, input, policy) && SameSession(o, input)
    && InTime(o, policy, now) && o.priceE8 > 0
  }

  /** A price counts exactly when one is required and this one is sound. */
  lemma EligibleExactly(i: nat, input: Input, policy: Policy, now: int)
    requires i < |input.prices|
    ensures input.prices[i] in Eligible(input, policy, now)
       <==> PriceAsked(input, policy) && Sound(i, input, policy, now)
  {
    EligibleMember(input.prices[i], input, policy, now);
    OnlyOfFeedExactly(i, input.prices);
  }

  predicate DifferentFeeds(prices: seq<Price>) {
    forall a, b :: 0 <= a < b < |prices| ==> prices[a].feedId != prices[b].feedId
  }

  lemma {:induction false} FeedsDiffer(f: Price -> bool, s: seq<Price>)
    requires forall i, j :: 0 <= i < j < |s| && f(s[i]) && f(s[j]) ==> s[i].feedId != s[j].feedId
    ensures DifferentFeeds(Filter(f, s))
  {
    if s != [] {
      var (front, last) := (s[..|s| - 1], s[|s| - 1]);
      assert forall i :: 0 <= i < |front| ==> front[i] == s[i];
      FeedsDiffer(f, front);
      forall a | 0 <= a < |Filter(f, front)| && f(last) ensures Filter(f, front)[a].feedId != last.feedId {
        FilterMember(f, front, Filter(f, front)[a]);
        var i :| 0 <= i < |front| && front[i] == Filter(f, front)[a];
      }
    }
  }

  lemma SoundOnce(i: nat, j: nat, input: Input, policy: Policy, now: int)
    requires i < j < |input.prices| && Counts(input, policy, now)(input.prices[i])
    ensures input.prices[i].feedId != input.prices[j].feedId
  {
    NoFailures(input.prices[i], input, policy, now);
    OnlyOfFeedExactly(i, input.prices);
  }

  /** No feed counts twice. */
  lemma EligibleOnce(input: Input, policy: Policy, now: int)
    ensures DifferentFeeds(Eligible(input, policy, now))
  {
    var counts := Counts(input, policy, now);
    forall i, j | 0 <= i < j < |input.prices| && counts(input.prices[i]) && counts(input.prices[j])
      ensures input.prices[i].feedId != input.prices[j].feedId
    {
      SoundOnce(i, j, input, policy, now);
    }
    FeedsDiffer(counts, input.prices);
    assert Eligible(input, policy, now) == Filter(counts, input.prices);
  }

  lemma AsManyFeeds(input: Input, policy: Policy, now: int)
    ensures |Evaluate(input, policy, now).evaluation.eligibleFeeds| == |Eligible(input, policy, now)|
    ensures Evaluate(input, policy, now).evaluation.independentGroups == |Groups(Eligible(input, policy, now), policy)|
  {
    SortPermutes(JsStrings.AtMost, Map(FeedId(), Eligible(input, policy, now)));
  }

  lemma CoverageHolds(input: Input, policy: Policy, now: int)
    ensures ReasonHolds(input, policy, now, InsufficientPriceCoverage)
       <==> PriceRequired(input, policy) && |Eligible(input, policy, now)| < policy.minProviders
    ensures ReasonHolds(input, policy, now, InsufficientIndependence)
       <==> PriceRequired(input, policy)
            && |Groups(Eligible(input, policy, now), policy)| < policy.minIndependentGroups
  {
  }

  /** The coverage reasons: too few feeds with a sound price, or too few groups of feeds that are not derived. */
  lemma CoverageReasons(input: Input, policy: Policy, now: int)
    ensures InsufficientPriceCoverage in Evaluate(input, policy, now).evaluation.reasons
       <==> PriceAsked(input, policy)
            && |Evaluate(input, policy, now).evaluation.eligibleFeeds| < policy.minProviders
    ensures InsufficientIndependence in Evaluate(input, policy, now).evaluation.reasons
       <==> PriceAsked(input, policy)
            && Evaluate(input, policy, now).evaluation.independentGroups < policy.minIndependentGroups
  {
    AsManyFeeds(input, policy, now);
    UsableMarketStands(input, policy, now);
    CoverageHolds(input, policy, now);
    ReasonsExactly(input, policy, now, InsufficientPriceCoverage);
    ReasonsExactly(input, policy, now, InsufficientIndependence);
  }

  lemma EligibleAt(o: Price, input: Input, policy: Policy, now: int) returns (i: nat)
    requires o in Eligible(input, policy, now)
    ensures i < |input.prices| && input.prices[i] == o && PriceAsked(input, policy) && Sound(i, input, policy, now)
  {
    EligibleMember(o, input, policy, now);
    i :| 0 <= i < |input.prices| && input.prices[i] == o;
    EligibleExactly(i, input, policy, now);
  }

  /** A sound price whose feed is in the group, and not derived. */
  predicate SoundGroup(i: nat, group: string, input: Input, policy: Policy, now: int)
    requires i < |input.prices|
  {
    Sound(i, input, policy, now) &&
    var feed := policy.feeds[input.prices[i].feedId];
    !feed.derived && feed.group == group
  }

  /** The groups are those of the feeds, not derived, that have an eligible price. */
  lemma GroupsExactly(group: string, input: Input, policy: Policy, now: int)
    ensures group in Groups(Eligible(input, policy, now), policy)
       <==> PriceAsked(input, policy)
            && exists i :: 0 <= i < |input.prices| && SoundGroup(i, group, input, policy, now)
  {
    var eligible := Eligible(input, policy, now);
    GroupsMember(eligible, policy, group);
    if o :| o in eligible && GivesGroup(o, policy, group) {
      var i := EligibleAt(o, input, policy, now);
      assert SoundGroup(i, group, input, policy, now);
    }
    if i :| 0 <= i < |input.prices| && PriceAsked(input, policy) && SoundGroup(i, group, input, policy, now) {
      EligibleExactly(i, input, policy, now);
      assert GivesGroup(input.prices[i], policy, group);
    }
  }

  predicate SoundFeed(i: nat, feedId: string, input: Input, policy: Policy, now: int)
    requires i < |input.prices|
  {
    Sound(i, input, policy, now) && input.prices[i].feedId == feedId
  }

  lemma EligibleFeed(feedId: string, input: Input, policy: Policy, now: int)
    ensures (exists o :: o in Eligible(input, policy, now) && o.feedId == feedId)
       <==> PriceAsked(input, policy)
            && exists i :: 0 <= i < |input.prices| && SoundFeed(i, feedId, input, policy, now)
  {
    if o :| o in Eligible(input, policy, now) && o.feedId == feedId {
      var i := EligibleAt(o, input, policy, now);
      assert SoundFeed(i, feedId, input, policy, now);
    }
    if i :| 0 <= i < |input.prices| && PriceAsked(input, policy) && SoundFeed(i, feedId, input, policy, now) {
      EligibleExactly(i, input, policy, now);
    }
  }

  /** A feed is reported as eligible exactly when it has a sound price, and a price is required. */
  lemma FeedsExactly(feedId: string, input: Input, policy: Policy, now: int)
    ensures feedId in Evaluate(input, policy, now).evaluation.eligibleFeeds
       <==> PriceAsked(input, policy)
            && exists i :: 0 <= i < |input.prices| && SoundFeed(i, feedId, input, policy, now)
  {
    FeedListed(input, policy, now, feedId);
    EligibleFeed(feedId, input, policy, now);
  }

  // ---------- When an evaluation allows ----------

  /** A standing market state with nothing against the action. */
  predicate MarketSilent(input: Input, policy: Policy, now: int)
    requires PriceAsked(input, policy)
  {
    && MarketStands(input, policy, now)
    && input.market.value.session in policy.actions[input.request.action].allowedSessions
    && input.market.value.session != UnknownSession
    && (input.market.value.session == Closed ==> input.instrument.priceBasis == TokenMarket)
    && input.market.value.halt == NoHalt && input.market.value.corporateAction == NoAction
  }

  lemma ClearIsSilent(input: Input, policy: Policy, now: int)
    requires PriceAsked(input, policy)
    ensures MarketClear(input, policy, now) <==> MarketSilent(input, policy, now)
  {
    UsableMarketStands(input, policy, now);
  }

  /** Enough feeds and groups, and no two of the counted prices too far apart. */
  predicate Agreed(input: Input, policy: Policy, now: int) {
    var e := Evaluate(input, policy, now).evaluation;
    && policy.minProviders <= |e.eligibleFeeds| && policy.minIndependentGroups <= e.independentGroups
    && PriceDisagreement !in e.reasons
  }

  lemma CoveredIsAgreed(input: Input, policy: Policy, now: int)
    requires PriceAsked(input, policy)
    ensures Covered(input, policy, now) <==> Agreed(input, policy, now)
  {
    UsableMarketStands(input, policy, now);
    AsManyFeeds(input, policy, now);
    DisagreementReason(input, policy, now);
  }

  lemma ClearIsStated(kind: Kind, input: Input, policy: Policy, now: int)
    ensures kind in KindsOf(input, policy) <==> Asked(kind, input, policy)
    ensures EvidenceClear(kind, input, policy, now) <==> Stated(kind, Ok, input, policy, now)
  {
    AvailableIsStated(kind, input, policy, now);
  }

  /** An evaluation allows exactly when there is a rule for the action, each kind of evidence it asks for is stated to
      be in order, and, where it requires a price, the market is silent and the prices agree. */
  lemma AllowOnFields(input: Input, policy: Policy, now: int)
    ensures Evaluate(input, policy, now).evaluation.verdict == Allow
       <==> && input.request.action in policy.actions
            && (forall kind :: Asked(kind, input, policy) ==> Stated(kind, Ok, input, policy, now))
            && (PriceAsked(input, policy) ==> MarketSilent(input, policy, now) && Agreed(input, policy, now))
  {
    AllowExactly(input, policy, now);
    UsableMarketStands(input, policy, now);
    forall kind
      ensures kind in KindsOf(input, policy) <==> Asked(kind, input, policy)
      ensures EvidenceClear(kind, input, policy, now) <==> Stated(kind, Ok, input, policy, now)
    {
      ClearIsStated(kind, input, policy, now);
    }
    if PriceAsked(input, policy) {
      ClearIsSilent(input, policy, now);
      CoveredIsAgreed(input, policy, now);
    }
  }

  // ---------- When an evaluation blocks ----------

  /** The findings that speak against the action; the others leave it open. */
  predicate Blocking(reason: Reason) {
    match reason
    case ActionNotAllowed => true
    case SessionNotAllowed => true
    case ClosedRequiresTokenMarketPrice => true
    case InstrumentHalted => true
    case CorporateActionPending => true
    case PriceDisagreement => true
    case EvidenceBlocked(_) => true
    case _ => false
  }

  /** What is pushed onto the two lists. */
  predicate Apart(p: Pushes) {
    (forall r :: r in p.blocked ==> Blocking(r)) && forall r :: r in p.reasons ==> !Blocking(r)
  }

  lemma ApartJoin(a: Pushes, b: Pushes)
    requires Apart(a) && Apart(b)
    ensures Apart(Join(a, b))
  {
  }

  lemma {:induction false} EvidenceApart(kinds: seq<Kind>, input: Input, policy: Policy, now: int)
    ensures Apart(EvidencePushes(kinds, input, policy, now))
  {
    if kinds != [] {
      EvidenceApart(kinds[..|kinds| - 1], input, policy, now);
      ApartJoin(EvidencePushes(kinds[..|kinds| - 1], input, policy, now),
                 KindPushes(kinds[|kinds| - 1], input, policy, now));
    }
  }

  lemma MarketApart(input: Input, policy: Policy, now: int)
    ensures Apart(MarketPushes(input, policy, now))
  {
    if PriceRequired(input, policy) && MarketUsable(input, policy, now) {
      var (m, rule) := (input.market.value, RuleOf(input, policy).value);
      forall r | r in StateBlocked(m, rule, input.instrument.priceBasis) ensures Blocking(r) {
        StateBlockedExactly(m, rule, input.instrument.priceBasis, r);
      }
      forall r | r in StateReasons(m) ensures !Blocking(r) {
        StateReasonsExactly(m, r);
      }
    }
  }

  lemma OthersApart(sorted: seq<Price>, groups: set<string>, input: Input, policy: Policy, now: int)
    ensures Apart(StartPushes(input, policy, now)) && Apart(ConsensusPushes(sorted, groups, input, policy))
  {
  }

  lemma ApartFive(a: Pushes, b: Pushes, c: Pushes, d: Pushes, e: Pushes)
    requires Apart(a) && Apart(b) && Apart(c) && Apart(d) && Apart(e)
    ensures Apart(Join(Join(Join(Join(a, b), c), d), e))
  {
    ApartJoin(a, b);
    ApartJoin(Join(a, b), c);
    ApartJoin(Join(Join(a, b), c), d);
    ApartJoin(Join(Join(Join(a, b), c), d), e);
  }

  lemma AllApart(input: Input, policy: Policy, now: int)
    ensures Apart(AllPushes(input, policy, now))
  {
    var eligible := Eligible(input, policy, now);
    var (sorted, groups) := (Sort(PriceAtMost, eligible), Groups(eligible, policy));
    MarketApart(input, policy, now);
    EvidenceApart(KindsOf(input, policy), input, policy, now);
    OthersApart(sorted, groups, input, policy, now);
    ApartFive(StartPushes(input, policy, now), MarketPushes(input, policy, now), PricePushes(eligible, policy),
              ConsensusPushes(sorted, groups, input, policy),
              EvidencePushes(KindsOf(input, policy), input, policy, now));
  }

  lemma VerdictSays(all: Pushes, reasons: seq<Reason>)
    requires Apart(all) && forall r :: r in reasons <==> Says(all, r)
    ensures VerdictOf(all) == Block <==> exists r :: r in reasons && Blocking(r)
    ensures VerdictOf(all) == Allow <==> reasons == []
  {
    if all.blocked != [] {
      assert Says(all, all.blocked[0]);
    } else if all.reasons != [] {
      assert Says(all, all.reasons[0]);
    }
    if reasons != [] {
      assert reasons[0] in reasons;
    }
  }

  lemma VerdictOfAll(input: Input, policy: Policy, now: int)
    ensures Evaluate(input, policy, now).evaluation.verdict == VerdictOf(AllPushes(input, policy, now))
  {
    StartsWithTtl(input, policy, now);
  }

  /** The verdict is what the reported reasons say: BLOCK when one of them blocks, ALLOW when there is none. */
  lemma VerdictFromReasons(input: Input, policy: Policy, now: int)
    ensures var e := Evaluate(input, policy, now).evaluation;
      && (e.verdict == Block <==> exists r :: r in e.reasons && Blocking(r))
      && (e.verdict == Allow <==> e.reasons == [])
  {
    VerdictOfAll(input, policy, now);
    AllApart(input, policy, now);
    forall r ensures r in Evaluate(input, policy, now).evaluation.reasons <==> Says(AllPushes(input, policy, now), r) {
      ReasonsSay(input, policy, now, r);
    }
    VerdictSays(AllPushes(input, policy, now), Evaluate(input, policy, now).evaluation.reasons);
  }

  /** Two sound prices further apart than the policy's share of the reported price. */
  predicate TooFar(i: nat, j: nat, input: Input, policy: Policy, now: int)
    requires i < |input.prices| && j < |input.prices|
  {
    var price := Evaluate(input, policy, now).evaluation.consensusPriceE8;
    && Sound(i, input, policy, now) && Sound(j, input, policy, now) && price.Some?
    && (input.prices[i].priceE8 - input.prices[j].priceE8) * 10000 > price.value * policy.maxSpreadBps
  }

  lemma NoPriceNoDisagreement(input: Input, policy: Policy, now: int)
    requires PriceRequired(input, policy) ==> Eligible(input, policy, now) == []
    ensures PriceDisagreement !in Evaluate(input, policy, now).evaluation.reasons
  {
    DisagreementReason(input, policy, now);
    SortPermutes(PriceAtMost, Eligible(input, policy, now));
  }

  /** The prices disagree exactly when two sound ones are too far apart. */
  lemma DisagreementOnFields(input: Input, policy: Policy, now: int)
    ensures PriceDisagreement in Evaluate(input, policy, now).evaluation.reasons
       <==> PriceAsked(input, policy)
            && exists i, j :: 0 <= i < |input.prices| && 0 <= j < |input.prices| && TooFar(i, j, input, policy, now)
  {
    UsableMarketStands(input, policy, now);
    var eligible := Eligible(input, policy, now);
    if !PriceAsked(input, policy) {
      NoPriceNoDisagreement(input, policy, now);
    } else if eligible == [] {
      NoPriceNoDisagreement(input, policy, now);
      forall i | 0 <= i < |input.prices| ensures !Sound(i, input, policy, now) {
        EligibleExactly(i, input, policy, now);
      }
    } else {
      DisagreementExactly(input, policy, now);
      var price := Evaluate(input, policy, now).evaluation.consensusPriceE8.value;
      if a, b :| a in eligible && b in eligible && FarApart(a, b, price, policy) {
        var i := EligibleAt(a, input, policy, now);
        var j := EligibleAt(b, input, policy, now);
        assert TooFar(i, j, input, policy, now);
      }
      if i, j :| 0 <= i < |input.prices| && 0 <= j < |input.prices| && TooFar(i, j, input, policy, now) {
        EligibleExactly(i, input, policy, now);
        EligibleExactly(j, input, policy, now);
        assert FarApart(input.prices[i], input.prices[j], price, policy);
      }
    }
  }

  // ---------- Until when ----------

  /** What a statement that stands, and says yes or no, puts an end to. */
  predicate EvidenceDeadline(i: nat, d: int, input: Input, policy: Policy, now: int)
    requires i < |input.evidence|
  {
    var e := input.evidence[i];
    && Asked(e.kind, input, policy) && Holds(i, input, policy, now) && e.status != UnknownStatus
    && (d == e.validUntil || d == e.observedAt + policy.maxStateAgeSeconds)
  }

  predicate PriceDeadlineOf(i: nat, d: int, input: Input, policy: Policy, now: int)
    requires i < |input.prices|
  {
    Sound(i, input, policy, now) && d == input.prices[i].observedAt + policy.maxPriceAgeSeconds
  }

  /** Everything an evaluation must not outlive. */
  predicate Deadline(d: int, input: Input, policy: Policy, now: int) {
    || d == now + policy.reportTtlSeconds
    || (PriceAsked(input, policy) && MarketStands(input, policy, now)
        && (d == input.market.value.validUntil || d == input.market.value.observedAt + policy.maxStateAgeSeconds))
    || (PriceAsked(input, policy)
        && exists i :: 0 <= i < |input.prices| && PriceDeadlineOf(i, d, input, policy, now))
    || exists i :: 0 <= i < |input.evidence| && EvidenceDeadline(i, d, input, policy, now)
  }

  lemma MarketDeadlines(d: int, input: Input, policy: Policy, now: int)
    ensures d in MarketPushes(input, policy, now).deadlines
       <==> PriceAsked(input, policy) && MarketStands(input, policy, now)
            && (d == input.market.value.validUntil || d == input.market.value.observedAt + policy.maxStateAgeSeconds)
  {
    UsableMarketStands(input, policy, now);
  }

  lemma PriceDeadlines(d: int, input: Input, policy: Policy, now: int)
    ensures d in PricePushes(Eligible(input, policy, now), policy).deadlines
       <==> PriceAsked(input, policy)
            && exists i :: 0 <= i < |input.prices| && PriceDeadlineOf(i, d, input, policy, now)
  {
    var eligible := Eligible(input, policy, now);
    MapMember(PriceDeadline(policy), eligible, d);
    if o :| o in eligible && PriceDeadline(policy)(o) == d {
      var i := EligibleAt(o, input, policy, now);
      assert PriceDeadlineOf(i, d, input, policy, now);
    }
    if i :| 0 <= i < |input.prices| && PriceAsked(input, policy) && PriceDeadlineOf(i, d, input, policy, now) {
      EligibleExactly(i, input, policy, now);
      assert PriceDeadline(policy)(input.prices[i]) == d;
    }
  }

  lemma KindDeadlines(kind: Kind, d: int, input: Input, policy: Policy, now: int)
    requires Asked(kind, input, policy)
    ensures d in KindPushes(kind, input, policy, now).deadlines
       <==> exists i :: && 0 <= i < |input.evidence| && input.evidence[i].kind == kind
                        && EvidenceDeadline(i, d, input, policy, now)
  {
    var found := Filter(OfKind(kind), input.evidence);
    if |found| == 1 {
      var i := OneFiltered(OfKind(kind), input.evidence);
      UsableHolds(i, input, policy, now);
    }
    forall i | 0 <= i < |input.evidence| && input.evidence[i].kind == kind && Holds(i, input, policy, now)
      ensures found == [input.evidence[i]]
    {
      FilterOne(OfKind(kind), input.evidence, i);
    }
  }

  lemma {:induction false} KindsDeadlines(kinds: seq<Kind>, d: int, input: Input, policy: Policy, now: int)
    ensures d in EvidencePushes(kinds, input, policy, now).deadlines
       <==> exists kind :: kind in kinds && d in KindPushes(kind, input, policy, now).deadlines
  {
    if kinds != [] {
      var (front, last) := (kinds[..|kinds| - 1], kinds[|kinds| - 1]);
      KindsDeadlines(front, d, input, policy, now);
      assert forall kind :: kind in kinds <==> kind in front || kind == last;
    }
  }

  lemma EvidenceDeadlines(d: int, input: Input, policy: Policy, now: int)
    ensures d in EvidencePushes(KindsOf(input, policy), input, policy, now).deadlines
       <==> exists i :: 0 <= i < |input.evidence| && EvidenceDeadline(i, d, input, policy, now)
  {
    KindsDeadlines(KindsOf(input, policy), d, input, policy, now);
    forall kind ensures kind in KindsOf(input, policy) <==> Asked(kind, input, policy) {
      ClearIsStated(kind, input, policy, now);
    }
    forall kind | Asked(kind, input, policy)
      ensures d in KindPushes(kind, input, policy, now).deadlines
         <==> exists i :: && 0 <= i < |input.evidence| && input.evidence[i].kind == kind
                          && EvidenceDeadline(i, d, input, policy, now)
    {
      KindDeadlines(kind, d, input, policy, now);
    }
  }

  lemma DeadlinesExactly(d: int, input: Input, policy: Policy, now: int)
    ensures d in AllPushes(input, policy, now).deadlines <==> Deadline(d, input, policy, now)
  {
    PartsJoin(input, policy, now);
    MarketDeadlines(d, input, policy, now);
    PriceDeadlines(d, input, policy, now);
    EvidenceDeadlines(d, input, policy, now);
  }

  lemma UntilMinimum(input: Input, policy: Policy, now: int)
    ensures AllPushes(input, policy, now).deadlines != []
    ensures Evaluate(input, policy, now).validUntil == Minimum(AllPushes(input, policy, now).deadlines)
    ensures Evaluate(input, policy, now).evaluatedAt == now
  {
    StartsWithTtl(input, policy, now);
  }

  /** A report is valid until the first of its deadlines, and none that it has is left out. */
  lemma ValidUntilExactly(input: Input, policy: Policy, now: int)
    ensures Evaluate(input, policy, now).evaluatedAt == now
    ensures Deadline(Evaluate(input, policy, now).validUntil, input, policy, now)
    ensures forall d :: Deadline(d, input, policy, now) ==> Evaluate(input, policy, now).validUntil <= d
  {
    UntilMinimum(input, policy, now);
    MinimumExactly(AllPushes(input, policy, now).deadlines);
    forall d ensures d in AllPushes(input, policy, now).deadlines <==> Deadline(d, input, policy, now) {
      DeadlinesExactly(d, input, policy, now);
    }
  }

  // ---------- In which order ----------

  /** Not after, by UTF-16 code units. */
  ghost predicate NotAfter(x: string, y: string) {
    !JsStrings.UnitsBefore(JsStrings.CodeUnits(y), JsStrings.CodeUnits(x))
  }

  lemma AtMostIsNotAfter(x: string, y: string)
    ensures JsStrings.AtMost(x, y) <==> NotAfter(x, y)
  {
    JsStrings.LessTotal(x, y);
    JsStrings.LessIsUnits(y, x);
  }

  lemma {:induction false} SortedByText<T(!new)>(leq: (T, T) -> bool, text: T -> string, s: seq<T>)
    requires forall x, y :: leq(x, y) <==> JsStrings.AtMost(text(x), text(y))
    ensures var t := Sort(leq, s); forall i, j :: 0 <= i < j < |t| ==> NotAfter(text(t[i]), text(t[j]))
  {
    JsStrings.AtMostIsOrder();
    assert TotalPreorder(leq) by {
      forall x, y ensures leq(x, y) || leq(y, x) {
        assert JsStrings.AtMost(text(x), text(y)) || JsStrings.AtMost(text(y), text(x));
      }
      forall x, y, z | leq(x, y) && leq(y, z) ensures leq(x, z) {
        assert JsStrings.AtMost(text(x), text(y)) && JsStrings.AtMost(text(y), text(z));
      }
    }
    SortSorted(leq, s);
    var t := Sort(leq, s);
    forall i, j | 0 <= i < j < |t| ensures NotAfter(text(t[i]), text(t[j])) {
      AtMostIsNotAfter(text(t[i]), text(t[j]));
    }
  }

  lemma ReportLists(input: Input, policy: Policy, now: int)
    ensures var (e, all) := (Evaluate(input, policy, now).evaluation, AllPushes(input, policy, now));
      && e.reasons == Sort(ReasonAtMost, all.blocked + all.reasons)
      && e.eligibleFeeds == Sort(JsStrings.AtMost, Map(FeedId(), Eligible(input, policy, now)))
      && e.excluded == Sort(FeedAtMost, ExcludedOf(input, policy, now))
  {
    StartsWithTtl(input, policy, now);
  }

  /** Reasons, feeds and exclusions are listed in ascending order. */
  lemma ListsAscending(input: Input, policy: Policy, now: int)
    ensures var e := Evaluate(input, policy, now).evaluation;
      && (forall i, j :: 0 <= i < j < |e.reasons| ==> NotAfter(TextOf(e.reasons[i]), TextOf(e.reasons[j])))
      && (forall i, j :: 0 <= i < j < |e.eligibleFeeds| ==> NotAfter(e.eligibleFeeds[i], e.eligibleFeeds[j]))
      && (forall i, j :: 0 <= i < j < |e.excluded| ==> NotAfter(e.excluded[i].feedId, e.excluded[j].feedId))
  {
    var all := AllPushes(input, policy, now);
    ReportLists(input, policy, now);
    SortedByText(ReasonAtMost, TextOf, all.blocked + all.reasons);
    SortedByText(JsStrings.AtMost, s => s, Map(FeedId(), Eligible(input, policy, now)));
    SortedByText(FeedAtMost, (x: Excluded) => x.feedId, ExcludedOf(input, policy, now));
  }

  // ---------- What is accepted ----------

  /** The limits of a policy. */
  lemma PolicyOnFields(p: Policy)
    ensures ValidPolicy(p)
       <==> && p.wellFormed && 2 <= p.minIndependentGroups <= p.minProviders <= 32
            && 1 <= p.maxPriceAgeSeconds <= 86400 && 1 <= p.maxStateAgeSeconds <= 86400
            && 0 <= p.maxSpreadBps <= 10000 && 1 <= p.reportTtlSeconds <= 300
            && |p.feeds| <= 32 && |p.actions| > 0
            && (forall action :: action in p.actions ==>
                  && (!p.actions[action].priceRequired ==> action == Repay)
                  && (p.actions[action].priceRequired ==> p.actions[action].allowedSessions != [])
                  && UnknownSession !in p.actions[action].allowedSessions
                  && (forall i, j :: 0 <= i < j < |p.actions[action].requiredEvidence| ==>
                        p.actions[action].requiredEvidence[i] != p.actions[action].requiredEvidence[j]))
  {
    forall action | action in p.actions
      ensures UnknownSession !in p.actions[action].allowedSessions
         <==> forall i :: 0 <= i < |p.actions[action].allowedSessions| ==>
                            !p.actions[action].allowedSessions[i].UnknownSession?
    {
    }
  }

  /** The scope, the time and the sizes of an input. */
  lemma InputOnFields(input: Input, policy: Policy, now: int)
    ensures Accepted(input, policy, now)
       <==> && ValidPolicy(policy) && 1 <= now <= 9007199254740991 - 86400
            && input.instrument.wellFormed && input.request.wellFormed
            && policy.instrumentId == IdOf(input.instrument) && input.request.instrumentId == IdOf(input.instrument)
            && input.instrument.tokenChainId == input.request.chainId
            && |input.prices| <= 32 && |input.evidence| <= 32
            && (forall i :: 0 <= i < |input.prices| ==> input.prices[i].wellFormed)
            && (forall i :: 0 <= i < |input.evidence| ==> input.evidence[i].wellFormed)
            && (input.market.Some? ==> input.market.value.wellFormed)
  {
  }

  // ---------- One statement of each kind ----------

  /** A repayment that needs no price, and one statement of the given kind. */
  function StatementInput(kind: Kind, subject: Subject, status: EvidenceStatus, now: int): Input {
    Input(INSTRUMENT, Request(true, IdOf(INSTRUMENT), Repay, 1, ADDRESS), [], None,
          [Evidence(true, kind, IdOf(INSTRUMENT), subject, "registry", status, now, now + 1)])
  }

  function StatementPolicy(kind: Kind): Policy {
    Policy(true, IdOf(INSTRUMENT), 2, 2, 86400, 86400, 0, 300, map[], [], _ => ["registry"],
           map[Repay := Rule(false, [], [kind])])
  }

  function RightSubject(kind: Kind): Subject {
    match kind
    case Eligibility => Holder(ADDRESS)
    case Reserve => OfInstrument(IdOf(INSTRUMENT))
    case Redemption => OfInstrument(IdOf(INSTRUMENT))
  }

  lemma StatementAccepted(kind: Kind, subject: Subject, status: EvidenceStatus, now: int)
    requires 1 <= now <= LATEST
    ensures Accepted(StatementInput(kind, subject, status, now), StatementPolicy(kind), now)
  {
    assert ValidRule(Repay, StatementPolicy(kind).actions[Repay]);
  }

  lemma StatementHolds(kind: Kind, subject: Subject, status: EvidenceStatus, now: int)
    requires 1 <= now <= LATEST
    ensures var (input, policy) := (StatementInput(kind, subject, status, now), StatementPolicy(kind));
      && (forall k :: Asked(k, input, policy) <==> k == kind)
      && (forall answer :: Stated(kind, answer, input, policy, now)
                           <==> subject == RightSubject(kind) && answer == status)
  {
    var (input, policy) := (StatementInput(kind, subject, status, now), StatementPolicy(kind));
    assert Holds(0, input, policy, now) <==> subject == RightSubject(kind);
    assert input.evidence[0].kind == kind && input.evidence[0].status == status;
  }

  lemma StatementAllows(kind: Kind, subject: Subject, status: EvidenceStatus, now: int)
    requires 1 <= now <= LATEST
    ensures Evaluate(StatementInput(kind, subject, status, now), StatementPolicy(kind), now).evaluation.verdict == Allow
       <==> subject == RightSubject(kind) && status == Ok
  {
    var (input, policy) := (StatementInput(kind, subject, status, now), StatementPolicy(kind));
    StatementHolds(kind, subject, status, now);
    assert !PriceAsked(input, policy);
    AllowOnFields(input, policy, now);
  }

  /** An accepted input with one fresh statement of a required kind: a good one allows when it is about the right
      subject, the caller for eligibility and the instrument for the others, and only then; about any other subject it
      is unavailable. */
  lemma StatementDecides(kind: Kind, subject: Subject, status: EvidenceStatus, now: int)
    returns (input: Input, policy: Policy)
    requires 1 <= now <= LATEST
    ensures Accepted(input, policy, now)
    ensures |input.evidence| == 1 && input.evidence[0].kind == kind
    ensures input.evidence[0].subject == subject && input.evidence[0].status == status
    ensures var e := Evaluate(input, policy, now).evaluation;
      && (e.verdict == Allow
          <==> && status == Ok
               && subject == if kind == Eligibility then Holder(input.request.from)
                             else OfInstrument(IdOf(input.instrument)))
      && (EvidenceUnavailable(kind) in e.reasons <==> subject != RightSubject(kind) || status == UnknownStatus)
      && (EvidenceBlocked(kind) in e.reasons <==> subject == RightSubject(kind) && status == Blocked)
  {
    input, policy := StatementInput(kind, subject, status, now), StatementPolicy(kind);
    StatementAccepted(kind, subject, status, now);
    StatementHolds(kind, subject, status, now);
    StatementAllows(kind, subject, status, now);
    EvidenceReasons(kind, input, policy, now);
  }
}
