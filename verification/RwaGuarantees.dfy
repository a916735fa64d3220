// How long an evaluation lasts: every report has a window, and inside it an ALLOW keeps its prices until
// another one arrives.
module RwaGuarantees {
  import opened JsStrings
  import opened Lists
  import opened RwaEvaluator
  import opened Sorting

  // ---------- Every deadline is in the future ----------

  predicate AllLater(deadlines: seq<int>, now: int) {
    forall d :: d in deadlines ==> d > now
  }

  lemma EligibleMember(o: Price, input: Input, policy: Policy, now: int)
    ensures o in Eligible(input, policy, now)
       <==> o in input.prices && PriceRequired(input, policy) && Matches(o, input, policy) && Timely(o, policy, now)
  {
    FilterMember(Counts(input, policy, now), input.prices, o);
    NoFailures(o, input, policy, now);
  }

  lemma PriceDeadlinesLater(input: Input, policy: Policy, now: int)
    ensures AllLater(PricePushes(Eligible(input, policy, now), policy).deadlines, now)
  {
    var eligible := Eligible(input, policy, now);
    forall d | d in Map(PriceDeadline(policy), eligible) ensures d > now {
      MapMember(PriceDeadline(policy), eligible, d);
      var o :| o in eligible && PriceDeadline(policy)(o) == d;
      EligibleMember(o, input, policy, now);
    }
  }

  lemma {:induction false} EvidenceDeadlinesLater(kinds: seq<Kind>, input: Input, policy: Policy, now: int)
    ensures AllLater(EvidencePushes(kinds, input, policy, now).deadlines, now)
  {
    if kinds != [] {
      EvidenceDeadlinesLater(kinds[..|kinds| - 1], input, policy, now);
    }
  }

  lemma LaterJoin(a: Pushes, b: Pushes, now: int)
    ensures AllLater(Join(a, b).deadlines, now) <==> AllLater(a.deadlines, now) && AllLater(b.deadlines, now)
  {
    assert forall d :: d in Join(a, b).deadlines <==> d in a.deadlines || d in b.deadlines;
  }

  lemma DeadlinesLater(input: Input, policy: Policy, now: int)
    requires Accepted(input, policy, now)
    ensures AllLater(AllPushes(input, policy, now).deadlines, now)
  {
    var eligible := Eligible(input, policy, now);
    var (start, market) := (StartPushes(input, policy, now), MarketPushes(input, policy, now));
    var consensus := ConsensusPushes(Sort(PriceAtMost, eligible), Groups(eligible, policy), input, policy);
    var kinds := KindsOf(input, policy);
    PriceDeadlinesLater(input, policy, now);
    EvidenceDeadlinesLater(kinds, input, policy, now);
    LaterJoin(start, market, now);
    LaterJoin(Join(start, market), PricePushes(eligible, policy), now);
    LaterJoin(Join(Join(start, market), PricePushes(eligible, policy)), consensus, now);
    LaterJoin(Join(Join(Join(start, market), PricePushes(eligible, policy)), consensus),
              EvidencePushes(kinds, input, policy, now), now);
  }

  /** A report never expires before it is made. */
  lemma ValidUntilIsLater(input: Input, policy: Policy, now: int)
    requires Accepted(input, policy, now)
    ensures now < Evaluate(input, policy, now).validUntil <= now + policy.reportTtlSeconds
  {
    var deadlines := AllPushes(input, policy, now).deadlines;
    StartsWithTtl(input, policy, now);
    MinimumExactly(deadlines);
    DeadlinesLater(input, policy, now);
  }

  // ---------- An ALLOW lasts for its whole window ----------

  predicate Quiet(p: Pushes) {
    p.blocked == [] && p.reasons == []
  }

  lemma QuietJoin(a: Pushes, b: Pushes)
    ensures Quiet(Join(a, b)) <==> Quiet(a) && Quiet(b)
  {
  }

  /** The parts an evaluation joins, in order. */
  function Parts(input: Input, policy: Policy, now: int): seq<Pushes> {
    var eligible := Eligible(input, policy, now);
    [StartPushes(input, policy, now), MarketPushes(input, policy, now), PricePushes(eligible, policy),
     ConsensusPushes(Sort(PriceAtMost, eligible), Groups(eligible, policy), input, policy),
     EvidencePushes(KindsOf(input, policy), input, policy, now)]
  }

  lemma JoinFive(a: Pushes, b: Pushes, c: Pushes, d: Pushes, e: Pushes)
    ensures var all := Join(Join(Join(Join(a, b), c), d), e);
      && (Quiet(all) <==> Quiet(a) && Quiet(b) && Quiet(c) && Quiet(d) && Quiet(e))
      && (forall x :: x in all.deadlines
                      <==> x in a.deadlines || x in b.deadlines || x in c.deadlines || x in d.deadlines || x in e.deadlines)
  {
    QuietJoin(a, b);
    QuietJoin(Join(a, b), c);
    QuietJoin(Join(Join(a, b), c), d);
    QuietJoin(Join(Join(Join(a, b), c), d), e);
  }

  /** An evaluation is quiet when its parts are, and its deadlines are theirs. */
  lemma PartsJoin(input: Input, policy: Policy, now: int)
    ensures var (parts, all) := (Parts(input, policy, now), AllPushes(input, policy, now));
      && (Quiet(all) <==> Quiet(parts[0]) && Quiet(parts[1]) && Quiet(parts[2]) && Quiet(parts[3]) && Quiet(parts[4]))
      && (forall x :: x in all.deadlines
                      <==> || x in parts[0].deadlines || x in parts[1].deadlines || x in parts[2].deadlines
                           || x in parts[3].deadlines || x in parts[4].deadlines)
  {
    var eligible := Eligible(input, policy, now);
    JoinFive(StartPushes(input, policy, now), MarketPushes(input, policy, now), PricePushes(eligible, policy),
             ConsensusPushes(Sort(PriceAtMost, eligible), Groups(eligible, policy), input, policy),
             EvidencePushes(KindsOf(input, policy), input, policy, now));
  }

  lemma AllowIsQuiet(input: Input, policy: Policy, now: int)
    ensures Evaluate(input, policy, now).evaluation.verdict.Allow? <==> Quiet(AllPushes(input, policy, now))
  {
    StartsWithTtl(input, policy, now);
  }

  lemma NotAfterDeadlines(input: Input, policy: Policy, now: int, d: int)
    requires d in AllPushes(input, policy, now).deadlines
    ensures Evaluate(input, policy, now).validUntil <= d
  {
    MinimumExactly(AllPushes(input, policy, now).deadlines);
  }

  /** A usable market state stays usable until its deadlines. */
  lemma MarketLasts(input: Input, policy: Policy, t: int, later: int)
    requires t <= later && Quiet(MarketPushes(input, policy, t))
    requires forall d :: d in MarketPushes(input, policy, t).deadlines ==> later < d
    ensures MarketPushes(input, policy, later) == MarketPushes(input, policy, t)
  {
    if PriceRequired(input, policy) {
      assert MarketUsable(input, policy, t);
      var deadlines := MarketPushes(input, policy, t).deadlines;
      assert deadlines[0] in deadlines && deadlines[1] in deadlines;
    }
  }

  lemma KindLasts(kind: Kind, input: Input, policy: Policy, t: int, later: int)
    requires t <= later && Quiet(KindPushes(kind, input, policy, t))
    requires forall d :: d in KindPushes(kind, input, policy, t).deadlines ==> later < d
    ensures KindPushes(kind, input, policy, later) == KindPushes(kind, input, policy, t)
  {
    var deadlines := KindPushes(kind, input, policy, t).deadlines;
    assert deadlines[0] in deadlines && deadlines[1] in deadlines;
  }

  lemma {:induction false} EvidenceLasts(kinds: seq<Kind>, input: Input, policy: Policy, t: int, later: int)
    requires t <= later && Quiet(EvidencePushes(kinds, input, policy, t))
    requires forall d :: d in EvidencePushes(kinds, input, policy, t).deadlines ==> later < d
    ensures EvidencePushes(kinds, input, policy, later) == EvidencePushes(kinds, input, policy, t)
  {
    if kinds != [] {
      var (front, last) := (kinds[..|kinds| - 1], kinds[|kinds| - 1]);
      var (before, here) := (EvidencePushes(front, input, policy, t), KindPushes(last, input, policy, t));
      QuietJoin(before, here);
      forall d | d in before.deadlines || d in here.deadlines ensures later < d {
        assert d in Join(before, here).deadlines;
      }
      EvidenceLasts(front, input, policy, t, later);
      KindLasts(last, input, policy, t, later);
    }
  }

  /** A price that counts at `later` though it was not retrieved at `t`. */
  predicate Arrives(o: Price, input: Input, policy: Policy, t: int, later: int) {
    Matches(o, input, policy) && t < o.retrievedAt && Timely(o, policy, later)
  }

  lemma DeadlineListed(o: Price, input: Input, policy: Policy, t: int)
    requires o in Eligible(input, policy, t)
    ensures o.observedAt + policy.maxPriceAgeSeconds in PricePushes(Eligible(input, policy, t), policy).deadlines
  {
    MapMember(PriceDeadline(policy), Eligible(input, policy, t), PriceDeadline(policy)(o));
  }

  lemma CountsLast(o: Price, input: Input, policy: Policy, t: int, later: int)
    requires t <= later && o in input.prices
    requires forall d :: d in PricePushes(Eligible(input, policy, t), policy).deadlines ==> later < d
    requires PriceRequired(input, policy) ==> !Arrives(o, input, policy, t, later)
    ensures Counts(input, policy, t)(o) == Counts(input, policy, later)(o)
  {
    NoFailures(o, input, policy, t);
    NoFailures(o, input, policy, later);
    FilterMember(Counts(input, policy, t), input.prices, o);
    if o in Eligible(input, policy, t) {
      DeadlineListed(o, input, policy, t);
    }
  }

  lemma EligibleLasts(input: Input, policy: Policy, t: int, later: int)
    requires t <= later
    requires forall d :: d in PricePushes(Eligible(input, policy, t), policy).deadlines ==> later < d
    requires PriceRequired(input, policy) ==> forall o :: o in input.prices ==> !Arrives(o, input, policy, t, later)
    ensures Eligible(input, policy, later) == Eligible(input, policy, t)
  {
    forall o | o in input.prices ensures Counts(input, policy, t)(o) == Counts(input, policy, later)(o) {
      CountsLast(o, input, policy, t, later);
    }
    FilterAgrees(Counts(input, policy, t), Counts(input, policy, later), input.prices);
  }

  /** The same decision, on the same prices. */
  predicate SameAllow(a: Report, b: Report) {
    && a.evaluation.verdict.Allow? && b.evaluation.verdict.Allow?
    && a.evaluation.reasons == b.evaluation.reasons
    && a.evaluation.eligibleFeeds == b.evaluation.eligibleFeeds
    && a.evaluation.independentGroups == b.evaluation.independentGroups
    && a.evaluation.consensusPriceE8 == b.evaluation.consensusPriceE8
  }

  ghost predicate Stands(input: Input, policy: Policy, t: int, later: int) {
    SameAllow(Evaluate(input, policy, t), Evaluate(input, policy, later))
  }

  lemma QuietReasons(input: Input, policy: Policy, now: int)
    requires Quiet(AllPushes(input, policy, now))
    ensures Evaluate(input, policy, now).evaluation.reasons == []
  {
    var all := AllPushes(input, policy, now);
    assert all.blocked + all.reasons == [];
  }

  /** Rebuilding an ALLOW inside its window gives the same ALLOW, unless a price arrives. */
  lemma AllowLasts(input: Input, policy: Policy, t: int, later: int)
    requires Accepted(input, policy, t) && Evaluate(input, policy, t).evaluation.verdict.Allow?
    requires t <= later < Evaluate(input, policy, t).validUntil
    requires PriceRequired(input, policy) ==> forall o :: o in input.prices ==> !Arrives(o, input, policy, t, later)
    ensures Stands(input, policy, t, later)
  {
    AllowIsQuiet(input, policy, t);
    PartsJoin(input, policy, t);
    var (parts, all) := (Parts(input, policy, t), AllPushes(input, policy, t));
    forall d | d in all.deadlines ensures later < d {
      NotAfterDeadlines(input, policy, t, d);
    }
    MarketLasts(input, policy, t, later);
    EvidenceLasts(KindsOf(input, policy), input, policy, t, later);
    EligibleLasts(input, policy, t, later);
    PartsJoin(input, policy, later);
    AllowIsQuiet(input, policy, later);
    QuietReasons(input, policy, t);
    QuietReasons(input, policy, later);
  }

  /** In particular when every price was already retrieved. */
  lemma AllowLastsWhenAllRetrieved(input: Input, policy: Policy, t: int, later: int)
    requires Accepted(input, policy, t) && Evaluate(input, policy, t).evaluation.verdict.Allow?
    requires t <= later < Evaluate(input, policy, t).validUntil
    requires forall o :: o in input.prices ==> o.retrievedAt <= t
    ensures Stands(input, policy, t, later)
  {
    AllowLasts(input, policy, t, later);
  }

  /** A price that is in order but for being retrieved later, inside the window and the accepted times. */
  predicate Pending(o: Price, input: Input, policy: Policy, t: int, until: int) {
    Matches(o, input, policy) && t < o.retrievedAt < until && o.retrievedAt <= LATEST
    && o.retrievedAt < o.observedAt + policy.maxPriceAgeSeconds
  }

  lemma UniqueFeed(prices: seq<Price>, feedId: string, a: Price, b: Price)
    requires |Filter(SameFeed(feedId), prices)| == 1
    requires a in prices && b in prices && a.feedId == feedId && b.feedId == feedId
    ensures a == b
  {
    FilterMember(SameFeed(feedId), prices, a);
    FilterMember(SameFeed(feedId), prices, b);
    var only := Filter(SameFeed(feedId), prices);
    assert a == only[0] && b == only[0];
  }

  lemma FeedListed(input: Input, policy: Policy, now: int, feedId: string)
    ensures feedId in Evaluate(input, policy, now).evaluation.eligibleFeeds
       <==> exists o :: o in Eligible(input, policy, now) && o.feedId == feedId
  {
    var feeds := Map(FeedId(), Eligible(input, policy, now));
    SortPermutes(AtMost, feeds);
    assert feedId in Sort(AtMost, feeds) <==> feedId in multiset(Sort(AtMost, feeds));
    assert feedId in feeds <==> feedId in multiset(feeds);
    MapMember(FeedId(), Eligible(input, policy, now), feedId);
    if o :| o in Eligible(input, policy, now) && o.feedId == feedId {
      assert FeedId()(o) == feedId;
    }
    if o :| o in Eligible(input, policy, now) && FeedId()(o) == feedId {
      assert o.feedId == feedId;
    }
  }

  lemma PendingChangesFeeds(input: Input, policy: Policy, t: int, o: Price)
    requires PriceRequired(input, policy) && o in input.prices && Matches(o, input, policy) && t < o.retrievedAt
    requires o.retrievedAt < o.observedAt + policy.maxPriceAgeSeconds
    ensures o.feedId in Evaluate(input, policy, o.retrievedAt).evaluation.eligibleFeeds
    ensures o.feedId !in Evaluate(input, policy, t).evaluation.eligibleFeeds
  {
    EligibleMember(o, input, policy, o.retrievedAt);
    FeedListed(input, policy, o.retrievedAt, o.feedId);
    FeedListed(input, policy, t, o.feedId);
    forall p | p in Eligible(input, policy, t) && p.feedId == o.feedId ensures false {
      EligibleMember(p, input, policy, t);
      UniqueFeed(input.prices, o.feedId, p, o);
    }
  }

  /** Some required price is pending in the window. */
  ghost predicate SomePending(input: Input, policy: Policy, t: int, until: int) {
    PriceRequired(input, policy) && exists o :: o in input.prices && Pending(o, input, policy, t, until)
  }

  lemma NoneArrives(o: Price, input: Input, policy: Policy, t: int, later: int, until: int)
    requires later < until && later <= LATEST && !Pending(o, input, policy, t, until)
    ensures !Arrives(o, input, policy, t, later)
  {
  }

  lemma StandsWithoutPending(input: Input, policy: Policy, t: int, later: int, until: int)
    requires Accepted(input, policy, t) && Evaluate(input, policy, t).evaluation.verdict.Allow?
    requires until == Evaluate(input, policy, t).validUntil && t <= later < until && later <= LATEST
    requires !SomePending(input, policy, t, until)
    ensures Stands(input, policy, t, later)
  {
    if PriceRequired(input, policy) {
      forall o | o in input.prices ensures !Arrives(o, input, policy, t, later) {
        NoneArrives(o, input, policy, t, later, until);
      }
    }
    AllowLasts(input, policy, t, later);
  }

  lemma FallsWithPending(input: Input, policy: Policy, t: int, until: int) returns (later: int)
    requires SomePending(input, policy, t, until)
    ensures t <= later < until && later <= LATEST && !Stands(input, policy, t, later)
  {
    var o :| o in input.prices && Pending(o, input, policy, t, until);
    PendingChangesFeeds(input, policy, t, o);
    later := o.retrievedAt;
  }

  /** The whole decision, feeds and price included, stays the same through the window exactly when no required price
      is pending inside it. */
  lemma AllowStandsExactly(input: Input, policy: Policy, t: int)
    requires Accepted(input, policy, t) && Evaluate(input, policy, t).evaluation.verdict.Allow?
    ensures (forall later :: t <= later < Evaluate(input, policy, t).validUntil && later <= LATEST ==>
                               Stands(input, policy, t, later))
       <==> !SomePending(input, policy, t, Evaluate(input, policy, t).validUntil)
  {
    var until := Evaluate(input, policy, t).validUntil;
    if SomePending(input, policy, t, until) {
      var later := FallsWithPending(input, policy, t, until);
    } else {
      forall later | t <= later < until && later <= LATEST ensures Stands(input, policy, t, later) {
        StandsWithoutPending(input, policy, t, later, until);
      }
    }
  }
}
