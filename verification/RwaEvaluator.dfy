// The evaluation of a real-world-asset request: which prices count, the integer consensus price, the
// verdict and how long it lasts.
module RwaEvaluator {
  import opened JsNumbers
  import opened JsStrings
  import opened Lists
  import opened Sorting
  import opened Wrappers

  const LATEST: int := MAX_SAFE_INTEGER - 86400

  datatype Session = Regular | Pre | Post | Overnight | Closed | UnknownSession

  datatype PriceBasis = UnderlyingSpot | TokenMarket | TokenNav

  datatype Kind = Reserve | Eligibility | Redemption

  datatype Halt = NoHalt | Halted | UnknownHalt

  datatype CorporateAction = NoAction | PendingAction | UnknownAction

  datatype EvidenceStatus = Ok | Blocked | UnknownStatus

  datatype TradeAction = Buy | Sell | Borrow | Collateralize | Liquidate | Redeem | Repay

  /** `wellFormed` stands for the shape, label and format checks of the fields that are not compared. */
  datatype Instrument = Instrument(
    wellFormed: bool, underlyingId: string, issuer: string, tokenChainId: int, tokenAddress: string, venueMic: string,
    kind: string, currency: string, priceBasis: PriceBasis, corporateActionVersion: string)

  /** Hashing an instrument is an injective constructor. */
  datatype InstrumentId = IdOf(instrument: Instrument) | OtherId(text: string)

  datatype Request = Request(wellFormed: bool, instrumentId: InstrumentId, action: TradeAction, chainId: int,
                             from: string)

  datatype Feed = Feed(group: string, derived: bool, evidenceChainId: int)

  datatype Rule = Rule(priceRequired: bool, allowedSessions: seq<Session>, requiredEvidence: seq<Kind>)

  datatype Policy = Policy(
    wellFormed: bool, instrumentId: InstrumentId, minProviders: int, minIndependentGroups: int,
    maxPriceAgeSeconds: int, maxStateAgeSeconds: int, maxSpreadBps: int, reportTtlSeconds: int,
    feeds: map<string, Feed>, stateSources: seq<string>, evidenceSources: Kind -> seq<string>,
    actions: map<TradeAction, Rule>)

  datatype Price = Price(
    wellFormed: bool, feedId: string, instrumentId: InstrumentId, evidenceChainId: int, currency: string,
    priceBasis: PriceBasis, corporateActionVersion: string, session: Session, priceE8: nat, observedAt: int,
    retrievedAt: int)

  datatype Market = Market(
    wellFormed: bool, instrumentId: InstrumentId, mic: string, source: string, session: Session, halt: Halt,
    corporateAction: CorporateAction, observedAt: int, validUntil: int)

  datatype Subject = Holder(address: string) | OfInstrument(id: InstrumentId) | OtherSubject(text: string)

  datatype Evidence = Evidence(
    wellFormed: bool, kind: Kind, instrumentId: InstrumentId, subject: Subject, source: string, status: EvidenceStatus,
    observedAt: int, validUntil: int)

  datatype Input = Input(
    instrument: Instrument, request: Request, prices: seq<Price>, market: Option<Market>, evidence: seq<Evidence>)

  datatype Verdict = Allow | Block | Unknown

  datatype Failure =
    | FeedNotAdmitted | DuplicateFeed | PriceSemanticsMismatch | PriceSessionMismatch | PriceStaleOrFuture | PriceInvalid

  datatype Excluded = Excluded(feedId: string, reasons: seq<Failure>)

  datatype Reason =
    | ActionNotAllowed | MarketEvidenceUnavailable | SessionNotAllowed | ClosedRequiresTokenMarketPrice
    | InstrumentHalted | CorporateActionPending | MarketSessionUnknown | HaltStatusUnknown | CorporateActionUnknown
    | PriceDisagreement | InsufficientPriceCoverage | InsufficientIndependence
    | EvidenceUnavailable(kind: Kind) | EvidenceBlocked(kind: Kind)

  datatype Evaluation = Evaluation(
    verdict: Verdict, reasons: seq<Reason>, eligibleFeeds: seq<string>, independentGroups: nat,
    consensusPriceE8: Option<nat>, excluded: seq<Excluded>)

  datatype Report = Report(evaluatedAt: int, validUntil: int, evaluation: Evaluation)

  // ---------- The texts of the reasons ----------

  function NameOf(kind: Kind): string {
    match kind
    case Reserve => "RESERVE"
    case Eligibility => "ELIGIBILITY"
    case Redemption => "REDEMPTION"
  }

  function TextOf(reason: Reason): string {
    match reason
    case ActionNotAllowed => "ACTION_NOT_ALLOWED"
    case MarketEvidenceUnavailable => "MARKET_EVIDENCE_UNAVAILABLE"
    case SessionNotAllowed => "SESSION_NOT_ALLOWED"
    case ClosedRequiresTokenMarketPrice => "CLOSED_REQUIRES_TOKEN_MARKET_PRICE"
    case InstrumentHalted => "INSTRUMENT_HALTED"
    case CorporateActionPending => "CORPORATE_ACTION_PENDING"
    case MarketSessionUnknown => "MARKET_SESSION_UNKNOWN"
    case HaltStatusUnknown => "HALT_STATUS_UNKNOWN"
    case CorporateActionUnknown => "CORPORATE_ACTION_UNKNOWN"
    case PriceDisagreement => "PRICE_DISAGREEMENT"
    case InsufficientPriceCoverage => "INSUFFICIENT_PRICE_COVERAGE"
    case InsufficientIndependence => "INSUFFICIENT_INDEPENDENCE"
    case EvidenceUnavailable(kind) => NameOf(kind) + "_EVIDENCE_UNAVAILABLE"
    case EvidenceBlocked(kind) => NameOf(kind) + "_BLOCKED"
  }

  /** The order in which reasons are reported: that of their texts. */
  predicate ReasonAtMost(a: Reason, b: Reason) {
    AtMost(TextOf(a), TextOf(b))
  }

  // ---------- What is accepted for evaluation ----------

  predicate IsInteger(n: int, low: int, high: int) {
    low <= n <= high
  }

  predicate ValidRule(action: TradeAction, rule: Rule) {
    && (rule.priceRequired || action.Repay?)
    && (forall i :: 0 <= i < |rule.allowedSessions| ==> !rule.allowedSessions[i].UnknownSession?)
    && (rule.priceRequired ==> |rule.allowedSessions| > 0)
    && (forall i, j :: 0 <= i < j < |rule.requiredEvidence| ==> rule.requiredEvidence[i] != rule.requiredEvidence[j])
  }

  predicate ValidPolicy(p: Policy) {
    && p.wellFormed
    && IsInteger(p.minProviders, 2, 32) && IsInteger(p.minIndependentGroups, 2, p.minProviders)
    && IsInteger(p.maxPriceAgeSeconds, 1, 86400) && IsInteger(p.maxStateAgeSeconds, 1, 86400)
    && IsInteger(p.maxSpreadBps, 0, 10000) && IsInteger(p.reportTtlSeconds, 1, 300)
    && |p.feeds| <= 32 && |p.actions| > 0
    && (forall action :: action in p.actions ==> ValidRule(action, p.actions[action]))
  }

  predicate PricesWellFormed(prices: seq<Price>) {
    forall i :: 0 <= i < |prices| ==> prices[i].wellFormed
  }

  predicate EvidenceWellFormed(evidence: seq<Evidence>) {
    forall i :: 0 <= i < |evidence| ==> evidence[i].wellFormed
  }

  predicate Accepted(input: Input, policy: Policy, now: int) {
    && ValidPolicy(policy) && input.instrument.wellFormed && input.request.wellFormed
    && IsInteger(now, 1, LATEST)
    && policy.instrumentId == IdOf(input.instrument) == input.request.instrumentId
    && input.instrument.tokenChainId == input.request.chainId
    && |input.prices| <= 32 && |input.evidence| <= 32
    && (input.market.Some? ==> input.market.value.wellFormed)
    && PricesWellFormed(input.prices) && EvidenceWellFormed(input.evidence)
  }

  // ---------- Prices ----------

  function SameFeed(feedId: string): Price -> bool {
    (p: Price) => p.feedId == feedId
  }

  function FeedOf(policy: Policy, feedId: string): Option<Feed> {
    if feedId in policy.feeds then Some(policy.feeds[feedId]) else None
  }

  /** The failures of a price that do not depend on the time. */
  predicate Matches(o: Price, input: Input, policy: Policy) {
    var f := FeedOf(policy, o.feedId);
    && f.Some?
    && |Filter(SameFeed(o.feedId), input.prices)| == 1
    && o.instrumentId == IdOf(input.instrument) && o.currency == input.instrument.currency
    && o.priceBasis == input.instrument.priceBasis
    && o.corporateActionVersion == input.instrument.corporateActionVersion
    && o.evidenceChainId == f.value.evidenceChainId
    && input.market.Some? && o.session == input.market.value.session && !o.session.UnknownSession?
    && IsInteger(o.observedAt, 1, MAX_SAFE_INTEGER) && IsInteger(o.retrievedAt, 1, MAX_SAFE_INTEGER)
    && o.observedAt <= o.retrievedAt && o.priceE8 > 0
  }

  predicate Timely(o: Price, policy: Policy, now: int) {
    o.retrievedAt <= now < o.observedAt + policy.maxPriceAgeSeconds
  }

  datatype Flag = Flag(raised: bool, failure: Failure)

  function Pick(raised: bool, failure: Failure): seq<Failure> {
    if raised then [failure] else []
  }

  function Raised(flags: seq<Flag>): seq<Failure> {
    if flags == [] then []
    else Raised(flags[..|flags| - 1]) + Pick(flags[|flags| - 1].raised, flags[|flags| - 1].failure)
  }

  predicate SemanticsDiffer(o: Price, input: Input, f: Option<Feed>) {
    || o.instrumentId != IdOf(input.instrument) || o.currency != input.instrument.currency
    || o.priceBasis != input.instrument.priceBasis
    || o.corporateActionVersion != input.instrument.corporateActionVersion
    || f.None? || o.evidenceChainId != f.value.evidenceChainId
  }

  predicate SessionDiffers(o: Price, input: Input) {
    input.market.None? || o.session != input.market.value.session || o.session.UnknownSession?
  }

  predicate StaleOrFuture(o: Price, policy: Policy, now: int) {
    || !IsInteger(o.observedAt, 1, MAX_SAFE_INTEGER) || !IsInteger(o.retrievedAt, 1, MAX_SAFE_INTEGER)
    || o.observedAt > o.retrievedAt || o.retrievedAt > now || now - o.observedAt >= policy.maxPriceAgeSeconds
  }

  /** The failures as the code lists them. */
  function FailuresOf(o: Price, input: Input, policy: Policy, now: int): seq<Failure> {
    var f := FeedOf(policy, o.feedId);
    Raised([Flag(f.None?, FeedNotAdmitted),
            Flag(|Filter(SameFeed(o.feedId), input.prices)| != 1, DuplicateFeed),
            Flag(SemanticsDiffer(o, input, f), PriceSemanticsMismatch),
            Flag(SessionDiffers(o, input), PriceSessionMismatch),
            Flag(StaleOrFuture(o, policy, now), PriceStaleOrFuture),
            Flag(o.priceE8 <= 0, PriceInvalid)])
  }

  lemma RaisedSnoc(flags: seq<Flag>, flag: Flag)
    ensures Raised(flags + [flag]) == Raised(flags) + Pick(flag.raised, flag.failure)
  {
    assert (flags + [flag])[..|flags|] == flags;
  }

  lemma Six<T>(a: T, b: T, c: T, d: T, e: T, f: T)
    ensures [a, b, c, d, e, f] == [a] + [b] + [c] + [d] + [e] + [f]
  {
  }

  lemma RaisedSix(a: Flag, b: Flag, c: Flag, d: Flag, e: Flag, f: Flag)
    ensures Raised([a, b, c, d, e, f])
         == Pick(a.raised, a.failure) + Pick(b.raised, b.failure) + Pick(c.raised, c.failure)
            + Pick(d.raised, d.failure) + Pick(e.raised, e.failure) + Pick(f.raised, f.failure)
  {
    Six(a, b, c, d, e, f);
    assert [] + [a] == [a] && Raised([]) + Pick(a.raised, a.failure) == Pick(a.raised, a.failure);
    RaisedSnoc([], a);
    RaisedSnoc([a], b);
    RaisedSnoc([a] + [b], c);
    RaisedSnoc([a] + [b] + [c], d);
    RaisedSnoc([a] + [b] + [c] + [d], e);
    RaisedSnoc([a] + [b] + [c] + [d] + [e], f);
  }

  /** A price counts exactly when it matches and is timely. */
  lemma NoFailures(o: Price, input: Input, policy: Policy, now: int)
    ensures FailuresOf(o, input, policy, now) == [] <==> Matches(o, input, policy) && Timely(o, policy, now)
  {
    var f := FeedOf(policy, o.feedId);
    RaisedSix(Flag(f.None?, FeedNotAdmitted), Flag(|Filter(SameFeed(o.feedId), input.prices)| != 1, DuplicateFeed),
              Flag(SemanticsDiffer(o, input, f), PriceSemanticsMismatch),
              Flag(SessionDiffers(o, input), PriceSessionMismatch),
              Flag(StaleOrFuture(o, policy, now), PriceStaleOrFuture), Flag(o.priceE8 <= 0, PriceInvalid));
  }

  method PushFailure(failures: seq<Failure>, failed: bool, failure: Failure) returns (longer: seq<Failure>)
    ensures longer == failures + Pick(failed, failure)
  {
    longer := failures;
    if failed {
      longer := longer + [failure];
    }
  }

  method PriceFailures(o: Price, input: Input, policy: Policy, now: int,
                       f: Option<Feed>) returns (failures: seq<Failure>)
    requires f == FeedOf(policy, o.feedId)
    ensures failures == FailuresOf(o, input, policy, now)
  {
    var duplicate := |Filter(SameFeed(o.feedId), input.prices)| != 1;
    var (semantics, session, time) := (SemanticsDiffer(o, input, f), SessionDiffers(o, input), StaleOrFuture(o, policy, now));
    RaisedSix(Flag(f.None?, FeedNotAdmitted), Flag(duplicate, DuplicateFeed), Flag(semantics, PriceSemanticsMismatch),
              Flag(session, PriceSessionMismatch), Flag(time, PriceStaleOrFuture), Flag(o.priceE8 <= 0, PriceInvalid));
    failures := PushFailure([], f.None?, FeedNotAdmitted);
    assert failures == Pick(f.None?, FeedNotAdmitted);
    failures := PushFailure(failures, duplicate, DuplicateFeed);
    failures := PushFailure(failures, semantics, PriceSemanticsMismatch);
    failures := PushFailure(failures, session, PriceSessionMismatch);
    failures := PushFailure(failures, time, PriceStaleOrFuture);
    failures := PushFailure(failures, o.priceE8 <= 0, PriceInvalid);
  }

  // ---------- The rule, the market and the evidence ----------

  function RuleOf(input: Input, policy: Policy): Option<Rule> {
    if input.request.action in policy.actions then Some(policy.actions[input.request.action]) else None
  }

  predicate PriceRequired(input: Input, policy: Policy) {
    var rule := RuleOf(input, policy);
    rule.Some? && rule.value.priceRequired
  }

  /** Observed, not expired, and younger than `age`; all three bounds are in seconds. */
  predicate Fresh(observedAt: int, validUntil: int, now: int, age: int) {
    && IsInteger(observedAt, 1, MAX_SAFE_INTEGER) && IsInteger(validUntil, 1, MAX_SAFE_INTEGER)
    && observedAt <= now < validUntil && observedAt <= validUntil && now - observedAt < age
  }

  /** What one part of the evaluation pushes: onto `blocked`, `reasons` and `deadlines`. */
  datatype Pushes = Pushes(blocked: seq<Reason>, reasons: seq<Reason>, deadlines: seq<int>)

  function Join(a: Pushes, b: Pushes): Pushes {
    Pushes(a.blocked + b.blocked, a.reasons + b.reasons, a.deadlines + b.deadlines)
  }

  function When(condition: bool, reason: Reason): seq<Reason> {
    if condition then [reason] else []
  }

  predicate MarketUsable(input: Input, policy: Policy, now: int) {
    input.market.Some? &&
    var m := input.market.value;
    m.instrumentId == IdOf(input.instrument) && m.mic == input.instrument.venueMic && m.source in policy.stateSources
    && Fresh(m.observedAt, m.validUntil, now, policy.maxStateAgeSeconds)
  }

  /** What a usable market state says against the action, and what it leaves open. */
  function StateBlocked(m: Market, rule: Rule, basis: PriceBasis): seq<Reason> {
    When(!m.session.UnknownSession? && m.session !in rule.allowedSessions, SessionNotAllowed)
    + When(m.session.Closed? && !basis.TokenMarket?, ClosedRequiresTokenMarketPrice)
    + When(m.halt.Halted?, InstrumentHalted)
    + When(m.corporateAction.PendingAction?, CorporateActionPending)
  }

  function StateReasons(m: Market): seq<Reason> {
    When(m.session.UnknownSession?, MarketSessionUnknown)
    + When(m.halt.UnknownHalt?, HaltStatusUnknown)
    + When(m.corporateAction.UnknownAction?, CorporateActionUnknown)
  }

  function MarketPushes(input: Input, policy: Policy, now: int): Pushes {
    if !PriceRequired(input, policy) then Pushes([], [], [])
    else if !MarketUsable(input, policy, now) then Pushes([], [MarketEvidenceUnavailable], [])
    else
      var (m, rule) := (input.market.value, RuleOf(input, policy).value);
      Pushes(StateBlocked(m, rule, input.instrument.priceBasis), StateReasons(m),
             [m.validUntil, m.observedAt + policy.maxStateAgeSeconds])
  }

  function OfKind(kind: Kind): Evidence -> bool {
    (e: Evidence) => e.kind == kind
  }

  function SubjectFor(kind: Kind, input: Input): Subject {
    if kind.Eligibility? then Holder(input.request.from) else OfInstrument(IdOf(input.instrument))
  }

  predicate EvidenceUsable(e: Evidence, kind: Kind, input: Input, policy: Policy, now: int) {
    && e.instrumentId == IdOf(input.instrument) && e.subject == SubjectFor(kind, input)
    && e.source in policy.evidenceSources(kind)
    && Fresh(e.observedAt, e.validUntil, now, policy.maxStateAgeSeconds)
    && !e.status.UnknownStatus?
  }

  function KindPushes(kind: Kind, input: Input, policy: Policy, now: int): Pushes {
    var found := Filter(OfKind(kind), input.evidence);
    if |found| != 1 || !EvidenceUsable(found[0], kind, input, policy, now) then
      Pushes([], [EvidenceUnavailable(kind)], [])
    else
      Pushes(When(found[0].status.Blocked?, EvidenceBlocked(kind)), [],
             [found[0].validUntil, found[0].observedAt + policy.maxStateAgeSeconds])
  }

  function EvidencePushes(kinds: seq<Kind>, input: Input, policy: Policy, now: int): Pushes {
    if kinds == [] then Pushes([], [], [])
    else
      Join(EvidencePushes(kinds[..|kinds| - 1], input, policy, now), KindPushes(kinds[|kinds| - 1], input, policy, now))
  }

  function KindsOf(input: Input, policy: Policy): seq<Kind> {
    match RuleOf(input, policy) case None => [] case Some(rule) => rule.requiredEvidence
  }

  // ---------- The consensus ----------

  function Counts(input: Input, policy: Policy, now: int): Price -> bool {
    (o: Price) => PriceRequired(input, policy) && FailuresOf(o, input, policy, now) == []
  }

  function Eligible(input: Input, policy: Policy, now: int): seq<Price> {
    Filter(Counts(input, policy, now), input.prices)
  }

  function Fails(input: Input, policy: Policy, now: int): Price -> bool {
    (o: Price) => FailuresOf(o, input, policy, now) != []
  }

  function Exclusion(input: Input, policy: Policy, now: int): Price -> Excluded {
    (o: Price) => Excluded(o.feedId, FailuresOf(o, input, policy, now))
  }

  function ExcludedOf(input: Input, policy: Policy, now: int): seq<Excluded> {
    Map(Exclusion(input, policy, now), Filter(Fails(input, policy, now), input.prices))
  }

  function Groups(eligible: seq<Price>, policy: Policy): set<string> {
    if eligible == [] then {}
    else
      var (front, last) := (eligible[..|eligible| - 1], eligible[|eligible| - 1]);
      Groups(front, policy)
      + match FeedOf(policy, last.feedId) case None => {} case Some(f) => if f.derived then {} else {f.group}
  }

  function PriceDeadline(policy: Policy): Price -> int {
    (o: Price) => o.observedAt + policy.maxPriceAgeSeconds
  }

  /** The order of the consensus: by price, then by feed. */
  predicate PriceAtMost(a: Price, b: Price) {
    a.priceE8 < b.priceE8 || (a.priceE8 == b.priceE8 && AtMost(a.feedId, b.feedId))
  }

  predicate FeedAtMost(a: Excluded, b: Excluded) {
    AtMost(a.feedId, b.feedId)
  }

  function Median(sorted: seq<Price>): Option<nat> {
    if sorted == [] then None else Some(sorted[|sorted| / 2].priceE8)
  }

  predicate Disagrees(sorted: seq<Price>, policy: Policy) {
    sorted != []
    && (sorted[|sorted| - 1].priceE8 - sorted[0].priceE8) * 10000 > sorted[|sorted| / 2].priceE8 * policy.maxSpreadBps
  }

  function ConsensusPushes(sorted: seq<Price>, groups: set<string>, input: Input, policy: Policy): Pushes {
    if !PriceRequired(input, policy) then Pushes([], [], [])
    else
      Pushes(
        When(Disagrees(sorted, policy), PriceDisagreement),
        When(|sorted| < policy.minProviders, InsufficientPriceCoverage)
        + When(|groups| < policy.minIndependentGroups, InsufficientIndependence),
        [])
  }

  function FeedId(): Price -> string {
    (o: Price) => o.feedId
  }

  function VerdictOf(all: Pushes): Verdict {
    if all.blocked != [] then Block else if all.reasons != [] then Unknown else Allow
  }

  function StartPushes(input: Input, policy: Policy, now: int): Pushes {
    Pushes(When(RuleOf(input, policy).None?, ActionNotAllowed), [], [now + policy.reportTtlSeconds])
  }

  function PricePushes(eligible: seq<Price>, policy: Policy): Pushes {
    Pushes([], [], Map(PriceDeadline(policy), eligible))
  }

  /** Everything pushed, in the order of the code. */
  function AllPushes(input: Input, policy: Policy, now: int): Pushes {
    var eligible := Eligible(input, policy, now);
    var market := Join(StartPushes(input, policy, now), MarketPushes(input, policy, now));
    var consensus :=
      Join(Join(market, PricePushes(eligible, policy)),
           ConsensusPushes(Sort(PriceAtMost, eligible), Groups(eligible, policy), input, policy));
    Join(consensus, EvidencePushes(KindsOf(input, policy), input, policy, now))
  }

  lemma StartsWithTtl(input: Input, policy: Policy, now: int)
    ensures AllPushes(input, policy, now).deadlines != []
    ensures now + policy.reportTtlSeconds in AllPushes(input, policy, now).deadlines
  {
    assert AllPushes(input, policy, now).deadlines[0] == now + policy.reportTtlSeconds;
  }

  function Assemble(now: int, all: Pushes, eligible: seq<Price>, groups: set<string>, excluded: seq<Excluded>): Report
    requires all.deadlines != []
  {
    Report(
      now,
      Minimum(all.deadlines),
      Evaluation(
        VerdictOf(all),
        Sort(ReasonAtMost, all.blocked + all.reasons),
        Sort(AtMost, Map(FeedId(), eligible)),
        |groups|,
        Median(Sort(PriceAtMost, eligible)),
        Sort(FeedAtMost, excluded)))
  }

  function Evaluate(input: Input, policy: Policy, now: int): Report {
    var eligible := Eligible(input, policy, now);
    StartsWithTtl(input, policy, now);
    Assemble(now, AllPushes(input, policy, now), eligible, Groups(eligible, policy), ExcludedOf(input, policy, now))
  }

  // ---------- The code ----------

  /** The session, halt and corporate-action checks of a usable market state. */
  method MarketFindings(m: Market, rule: Rule, basis: PriceBasis) returns (blocked: seq<Reason>, reasons: seq<Reason>)
    ensures blocked == StateBlocked(m, rule, basis) && reasons == StateReasons(m)
  {
    blocked, reasons := [], [];
    if m.session.UnknownSession? {
      reasons := reasons + [MarketSessionUnknown];
    } else if m.session !in rule.allowedSessions {
      blocked := blocked + [SessionNotAllowed];
    }
    if m.session.Closed? && !basis.TokenMarket? {
      blocked := blocked + [ClosedRequiresTokenMarketPrice];
    }
    if m.halt.Halted? {
      blocked := blocked + [InstrumentHalted];
    }
    if m.halt.UnknownHalt? {
      reasons := reasons + [HaltStatusUnknown];
    }
    if m.corporateAction.PendingAction? {
      blocked := blocked + [CorporateActionPending];
    }
    if m.corporateAction.UnknownAction? {
      reasons := reasons + [CorporateActionUnknown];
    }
  }

  method EvaluateMarket(input: Input, policy: Policy, now: int, pushed: Pushes) returns (all: Pushes)
    ensures all == Join(pushed, MarketPushes(input, policy, now))
  {
    var (blocked, reasons, deadlines) := (pushed.blocked, pushed.reasons, pushed.deadlines);
    if PriceRequired(input, policy) {
      var rule := RuleOf(input, policy).value;
      if !MarketUsable(input, policy, now) {
        reasons := reasons + [MarketEvidenceUnavailable];
      } else {
        var m := input.market.value;
        deadlines := deadlines + [m.validUntil, m.observedAt + policy.maxStateAgeSeconds];
        var newBlocked, newReasons := MarketFindings(m, rule, input.instrument.priceBasis);
        blocked, reasons := blocked + newBlocked, reasons + newReasons;
      }
    }
    all := Pushes(blocked, reasons, deadlines);
  }

  lemma GroupsSnoc(eligible: seq<Price>, o: Price, policy: Policy)
    ensures Groups(eligible + [o], policy)
         == Groups(eligible, policy)
            + match FeedOf(policy, o.feedId) case None => {} case Some(f) => if f.derived then {} else {f.group}
  {
    assert (eligible + [o])[..|eligible + [o]| - 1] == eligible;
  }

  /** The eligible and the excluded prices among the first `i`. */
  function EligibleUpTo(i: nat, input: Input, policy: Policy, now: int): seq<Price>
    requires i <= |input.prices|
  {
    Filter(Counts(input, policy, now), input.prices[..i])
  }

  function ExcludedUpTo(i: nat, input: Input, policy: Policy, now: int): seq<Excluded>
    requires i <= |input.prices|
  {
    Map(Exclusion(input, policy, now), Filter(Fails(input, policy, now), input.prices[..i]))
  }

  lemma NextPrice(i: nat, input: Input, policy: Policy, now: int, failures: seq<Failure>)
    requires i < |input.prices| && failures == FailuresOf(input.prices[i], input, policy, now)
    ensures EligibleUpTo(i + 1, input, policy, now)
         == if PriceRequired(input, policy) && failures == [] then EligibleUpTo(i, input, policy,
                                                                                now) + [input.prices[i]]
            else EligibleUpTo(i, input, policy, now)
    ensures ExcludedUpTo(i + 1, input, policy, now)
         == if failures != [] then ExcludedUpTo(i, input, policy, now) + [Excluded(input.prices[i].feedId, failures)]
            else ExcludedUpTo(i, input, policy, now)
    ensures failures == [] ==> FeedOf(policy, input.prices[i].feedId).Some?
  {
    var (o, before) := (input.prices[i], input.prices[..i]);
    assert input.prices[..i + 1] == before + [o];
    FilterSnoc(Counts(input, policy, now), before, o);
    FilterSnoc(Fails(input, policy, now), before, o);
    MapSnoc(Exclusion(input, policy, now), Filter(Fails(input, policy, now), before), o);
    NoFailures(o, input, policy, now);
  }

  lemma AllPrices(input: Input, policy: Policy, now: int)
    ensures EligibleUpTo(0, input, policy, now) == [] && ExcludedUpTo(0, input, policy, now) == []
    ensures EligibleUpTo(|input.prices|, input, policy, now) == Eligible(input, policy, now)
    ensures ExcludedUpTo(|input.prices|, input, policy, now) == ExcludedOf(input, policy, now)
  {
    assert input.prices[..|input.prices|] == input.prices;
  }

  datatype Collection = Collection(eligible: seq<Price>, groups: set<string>, excluded: seq<Excluded>,
                                   deadlines: seq<int>)

  function Collect(c: Collection, o: Price, f: Option<Feed>, failures: seq<Failure>, required: bool, policy: Policy)
    : Collection
  {
    if failures != [] then c.(excluded := c.excluded + [Excluded(o.feedId, failures)])
    else if required && f.Some? then
      Collection(c.eligible + [o], if f.value.derived then c.groups else c.groups + {f.value.group}, c.excluded,
                 c.deadlines + [o.observedAt + policy.maxPriceAgeSeconds])
    else c
  }

  /** What the loop has collected from the first `i` prices, one price at a time. */
  function CollectionUpTo(i: nat, input: Input, policy: Policy, now: int): Collection
    requires i <= |input.prices|
  {
    if i == 0 then Collection([], {}, [], [])
    else
      var c := CollectionUpTo(i - 1, input, policy, now);
      var o := input.prices[i - 1];
      Collect(c, o, FeedOf(policy, o.feedId), FailuresOf(o, input, policy, now), PriceRequired(input, policy), policy)
  }

  lemma CollectStep(e: seq<Price>, x: seq<Excluded>, o: Price, failures: seq<Failure>, required: bool, policy: Policy)
    requires failures == [] ==> FeedOf(policy, o.feedId).Some?
    ensures
      var longer := if required && failures == [] then e + [o] else e;
      Collect(Collection(e, Groups(e, policy), x, Map(PriceDeadline(policy), e)), o, FeedOf(policy, o.feedId), failures,
              required, policy)
      == Collection(longer, Groups(longer, policy), if failures != [] then x + [Excluded(o.feedId, failures)] else x,
                    Map(PriceDeadline(policy), longer))
  {
    MapSnoc(PriceDeadline(policy), e, o);
    GroupsSnoc(e, o, policy);
  }

  function Filtered(e: seq<Price>, x: seq<Excluded>, policy: Policy): Collection {
    Collection(e, Groups(e, policy), x, Map(PriceDeadline(policy), e))
  }

  lemma NothingCollected(input: Input, policy: Policy, now: int)
    ensures CollectionUpTo(0, input, policy, now)
         == Filtered(EligibleUpTo(0, input, policy, now), ExcludedUpTo(0, input, policy, now), policy)
  {
    assert Filter(Counts(input, policy, now), []) == [] && Filter(Fails(input, policy, now), []) == [];
  }

  /** One more price: `e2` and `x2` are the eligible and the excluded prices with it. */
  lemma CollectionStep(i: nat, e: seq<Price>, x: seq<Excluded>, e2: seq<Price>, x2: seq<Excluded>,
                       failures: seq<Failure>, input: Input, policy: Policy, now: int)
    requires i < |input.prices| && CollectionUpTo(i, input, policy, now) == Filtered(e, x, policy)
    requires failures == FailuresOf(input.prices[i], input, policy, now)
    requires failures == [] ==> FeedOf(policy, input.prices[i].feedId).Some?
    requires e2 == if PriceRequired(input, policy) && failures == [] then e + [input.prices[i]] else e
    requires x2 == if failures != [] then x + [Excluded(input.prices[i].feedId, failures)] else x
    ensures CollectionUpTo(i + 1, input, policy, now) == Filtered(e2, x2, policy)
  {
    CollectStep(e, x, input.prices[i], failures, PriceRequired(input, policy), policy);
  }

  predicate CollectedRight(i: nat, input: Input, policy: Policy, now: int)
    requires i <= |input.prices|
  {
    CollectionUpTo(i, input, policy, now)
    == Filtered(EligibleUpTo(i, input, policy, now), ExcludedUpTo(i, input, policy, now), policy)
  }

  lemma CollectionNext(i: nat, input: Input, policy: Policy, now: int)
    requires i < |input.prices| && CollectedRight(i, input, policy, now)
    ensures CollectedRight(i + 1, input, policy, now)
  {
    var failures := FailuresOf(input.prices[i], input, policy, now);
    NextPrice(i, input, policy, now, failures);
    CollectionStep(i, EligibleUpTo(i, input, policy, now), ExcludedUpTo(i, input, policy, now),
                   EligibleUpTo(i + 1, input, policy, now), ExcludedUpTo(i + 1, input, policy, now), failures,
                   input, policy, now);
  }

  /** Collected in one pass, and by filtering: the same. */
  lemma {:induction false} CollectionIsFiltered(i: nat, input: Input, policy: Policy, now: int)
    requires i <= |input.prices|
    ensures CollectedRight(i, input, policy, now)
  {
    if i == 0 {
      NothingCollected(input, policy, now);
    } else {
      CollectionIsFiltered(i - 1, input, policy, now);
      CollectionNext(i - 1, input, policy, now);
    }
  }

  lemma CollectionUnfolds(i: nat, input: Input, policy: Policy, now: int)
    requires i < |input.prices|
    ensures var o := input.prices[i];
      CollectionUpTo(i + 1, input, policy, now)
      == Collect(CollectionUpTo(i, input, policy, now), o, FeedOf(policy, o.feedId), FailuresOf(o, input, policy, now),
                 PriceRequired(input, policy), policy)
  {
  }

  method CollectPrices(input: Input, policy: Policy, now: int)
    returns (eligible: seq<Price>, groups: set<string>, excluded: seq<Excluded>, deadlines: seq<int>)
    ensures Collection(eligible, groups, excluded, deadlines) == CollectionUpTo(|input.prices|, input, policy, now)
  {
    eligible, groups, excluded, deadlines := [], {}, [], [];
    for i := 0 to |input.prices|
      invariant Collection(eligible, groups, excluded, deadlines) == CollectionUpTo(i, input, policy, now)
    {
      var o := input.prices[i];
      var f := FeedOf(policy, o.feedId);
      var failures := PriceFailures(o, input, policy, now, f);
      assert failures == [] ==> f.Some? by {
        NoFailures(o, input, policy, now);
      }
      if |failures| > 0 {
        excluded := excluded + [Excluded(o.feedId, failures)];
      } else if PriceRequired(input, policy) {
        eligible := eligible + [o];
        if !f.value.derived {
          groups := groups + {f.value.group};
        }
        deadlines := deadlines + [o.observedAt + policy.maxPriceAgeSeconds];
      }
      CollectionUnfolds(i, input, policy, now);
    }
  }

  method EvaluateConsensus(sorted: seq<Price>, groups: set<string>, input: Input, policy: Policy, pushed: Pushes)
    returns (all: Pushes)
    ensures all == Join(pushed, ConsensusPushes(sorted, groups, input, policy))
  {
    var (blocked, reasons) := (pushed.blocked, pushed.reasons);
    if PriceRequired(input, policy) {
      if |sorted| < policy.minProviders {
        reasons := reasons + [InsufficientPriceCoverage];
      }
      if |groups| < policy.minIndependentGroups {
        reasons := reasons + [InsufficientIndependence];
      }
      var median := Median(sorted);
      if median.Some?
         && (sorted[|sorted| - 1].priceE8 - sorted[0].priceE8) * 10000 > median.value * policy.maxSpreadBps {
        blocked := blocked + [PriceDisagreement];
      }
    }
    all := Pushes(blocked, reasons, pushed.deadlines);
  }

  lemma KindsSnoc(kinds: seq<Kind>, i: nat, input: Input, policy: Policy, now: int)
    requires i < |kinds|
    ensures EvidencePushes(kinds[..i + 1], input, policy, now)
         == Join(EvidencePushes(kinds[..i], input, policy, now), KindPushes(kinds[i], input, policy, now))
  {
    assert kinds[..i + 1][..i] == kinds[..i] && kinds[..i + 1][i] == kinds[i];
  }

  lemma JoinAssociates(a: Pushes, b: Pushes, c: Pushes)
    ensures Join(Join(a, b), c) == Join(a, Join(b, c))
  {
  }

  method EvaluateKind(kind: Kind, input: Input, policy: Policy, now: int) returns (pushes: Pushes)
    ensures pushes == KindPushes(kind, input, policy, now)
  {
    var (blocked, reasons, deadlines) := ([], [], []);
    var matches := Filter(OfKind(kind), input.evidence);
    if |matches| != 1 || !EvidenceUsable(matches[0], kind, input, policy, now) {
      reasons := reasons + [EvidenceUnavailable(kind)];
    } else {
      var e := matches[0];
      deadlines := deadlines + [e.validUntil, e.observedAt + policy.maxStateAgeSeconds];
      if e.status.Blocked? {
        blocked := blocked + [EvidenceBlocked(kind)];
      }
    }
    pushes := Pushes(blocked, reasons, deadlines);
  }

  method EvaluateEvidence(input: Input, policy: Policy, now: int, pushed: Pushes) returns (all: Pushes)
    ensures all == Join(pushed, EvidencePushes(KindsOf(input, policy), input, policy, now))
  {
    var kinds := KindsOf(input, policy);
    all := pushed;
    for i := 0 to |kinds|
      invariant all == Join(pushed, EvidencePushes(kinds[..i], input, policy, now))
    {
      KindsSnoc(kinds, i, input, policy, now);
      var pushes := EvaluateKind(kinds[i], input, policy, now);
      JoinAssociates(pushed, EvidencePushes(kinds[..i], input, policy, now), pushes);
      all := Join(all, pushes);
    }
    assert kinds[..|kinds|] == kinds;
  }

  method CheckPrices(prices: seq<Price>) returns (ok: bool)
    ensures ok == PricesWellFormed(prices)
  {
    for i := 0 to |prices|
      invariant forall j :: 0 <= j < i ==> prices[j].wellFormed
    {
      if !prices[i].wellFormed {
        return false;
      }
    }
    ok := true;
  }

  method CheckEvidence(evidence: seq<Evidence>) returns (ok: bool)
    ensures ok == EvidenceWellFormed(evidence)
  {
    for i := 0 to |evidence|
      invariant forall j :: 0 <= j < i ==> evidence[j].wellFormed
    {
      if !evidence[i].wellFormed {
        return false;
      }
    }
    ok := true;
  }

  /** The checks that throw; the source makes them on the way, and returns nothing if one fails. */
  method CheckInput(input: Input, policy: Policy, now: int) returns (ok: bool)
    ensures ok == Accepted(input, policy, now)
  {
    if !ValidPolicy(policy) || !input.instrument.wellFormed || !input.request.wellFormed || !IsInteger(now, 1, LATEST) {
      return false;
    }
    var instrumentId := IdOf(input.instrument);
    if instrumentId != policy.instrumentId || instrumentId != input.request.instrumentId
       || input.instrument.tokenChainId != input.request.chainId {
      return false;
    }
    if |input.prices| > 32 || |input.evidence| > 32 || (input.market.Some? && !input.market.value.wellFormed) {
      return false;
    }
    var prices := CheckPrices(input.prices);
    var evidence := CheckEvidence(input.evidence);
    ok := prices && evidence;
  }

  method EvaluateAccepted(input: Input, policy: Policy, now: int) returns (report: Report)
    ensures report == Evaluate(input, policy, now)
  {
    var all := StartPushes(input, policy, now);
    all := EvaluateMarket(input, policy, now, all);
    var eligible, groups, excluded, deadlines := CollectPrices(input, policy, now);
    CollectionIsFiltered(|input.prices|, input, policy, now);
    AllPrices(input, policy, now);
    all := Join(all, Pushes([], [], deadlines));
    var sorted := Sort(PriceAtMost, eligible);
    all := EvaluateConsensus(sorted, groups, input, policy, all);
    all := EvaluateEvidence(input, policy, now, all);
    assert all == AllPushes(input, policy, now);
    StartsWithTtl(input, policy, now);
    report := Assemble(now, all, eligible, groups, excluded);
  }

  /** The report, or None where the source throws. */
  method BuildRwaReport(input: Input, policy: Policy, now: int) returns (report: Option<Report>)
    ensures report == if Accepted(input, policy, now) then Some(Evaluate(input, policy, now)) else None
  {
    var accepted := CheckInput(input, policy, now);
    if !accepted {
      return None;
    }
    var built := EvaluateAccepted(input, policy, now);
    report := Some(built);
  }
}
