// An evaluation does not depend on the order in which prices and evidence are supplied.
module RwaOrder {
  import opened JsStrings
  import opened Lists
  import opened RwaEvaluator
  import opened RwaGuarantees
  import opened Sorting

  /** The same input with its prices and evidence in another order. */
  ghost predicate Reordered(x: Input, y: Input) {
    && y == x.(prices := y.prices, evidence := y.evidence)
    && multiset(y.prices) == multiset(x.prices) && multiset(y.evidence) == multiset(x.evidence)
  }

  lemma SameMembers<T>(a: seq<T>, b: seq<T>, x: T)
    requires multiset(a) == multiset(b)
    ensures x in a <==> x in b
  {
    assert x in a <==> x in multiset(a);
    assert x in b <==> x in multiset(b);
  }

  lemma AcceptedAlike(x: Input, y: Input, policy: Policy, now: int)
    requires Reordered(x, y) && Accepted(x, policy, now)
    ensures Accepted(y, policy, now)
  {
    assert |multiset(y.prices)| == |multiset(x.prices)| && |multiset(y.evidence)| == |multiset(x.evidence)|;
    forall i | 0 <= i < |y.prices| ensures y.prices[i].wellFormed {
      SameMembers(x.prices, y.prices, y.prices[i]);
    }
    forall i | 0 <= i < |y.evidence| ensures y.evidence[i].wellFormed {
      SameMembers(x.evidence, y.evidence, y.evidence[i]);
    }
  }

  lemma FailuresAlike(o: Price, x: Input, y: Input, policy: Policy, now: int)
    requires Reordered(x, y)
    ensures FailuresOf(o, x, policy, now) == FailuresOf(o, y, policy, now)
  {
    FilterSize(SameFeed(o.feedId), x.prices, y.prices);
  }

  lemma EligibleAlike(x: Input, y: Input, policy: Policy, now: int)
    requires Reordered(x, y)
    ensures multiset(Eligible(x, policy, now)) == multiset(Eligible(y, policy, now))
  {
    FilterPermutes(Counts(x, policy, now), x.prices, y.prices);
    forall o | o in y.prices ensures Counts(x, policy, now)(o) == Counts(y, policy, now)(o) {
      FailuresAlike(o, x, y, policy, now);
    }
    FilterAgrees(Counts(x, policy, now), Counts(y, policy, now), y.prices);
  }

  lemma PriceAtMostIsOrder()
    ensures TotalPreorder(PriceAtMost)
  {
    AtMostIsOrder();
    forall a, b ensures PriceAtMost(a, b) || PriceAtMost(b, a) {
      assert AtMost(a.feedId, b.feedId) || AtMost(b.feedId, a.feedId);
    }
    forall a, b, c | PriceAtMost(a, b) && PriceAtMost(b, c) ensures PriceAtMost(a, c) {
      assert AtMost(a.feedId, b.feedId) && AtMost(b.feedId, c.feedId) ==> AtMost(a.feedId, c.feedId);
    }
  }

  /** Eligible prices with equal price and feed are one price: a repeated feed is excluded altogether. */
  lemma EligibleAntisymmetric(x: Input, policy: Policy, now: int)
    ensures Antisymmetric(PriceAtMost, multiset(Eligible(x, policy, now)))
  {
    var eligible := Eligible(x, policy, now);
    AtMostIsOrder();
    forall a, b | a in multiset(eligible) && b in multiset(eligible) && PriceAtMost(a, b) && PriceAtMost(b, a)
      ensures a == b
    {
      assert a in eligible && b in eligible;
      EligibleMember(a, x, policy, now);
      EligibleMember(b, x, policy, now);
      assert a.feedId == b.feedId;
      UniqueFeed(x.prices, a.feedId, a, b);
    }
  }

  lemma SortedAlike(x: Input, y: Input, policy: Policy, now: int)
    requires Reordered(x, y)
    ensures Sort(PriceAtMost, Eligible(x, policy, now)) == Sort(PriceAtMost, Eligible(y, policy, now))
  {
    EligibleAlike(x, y, policy, now);
    EligibleAntisymmetric(x, policy, now);
    PriceAtMostIsOrder();
    SortForgetsOrder(PriceAtMost, Eligible(x, policy, now), Eligible(y, policy, now));
  }

  lemma FeedsAlike(x: Input, y: Input, policy: Policy, now: int)
    requires Reordered(x, y)
    ensures Sort(AtMost, Map(FeedId(), Eligible(x, policy, now))) == Sort(AtMost, Map(FeedId(), Eligible(y, policy, now)))
  {
    EligibleAlike(x, y, policy, now);
    MapPermutes(FeedId(), Eligible(x, policy, now), Eligible(y, policy, now));
    AtMostIsOrder();
    SortForgetsOrder(AtMost, Map(FeedId(), Eligible(x, policy, now)), Map(FeedId(), Eligible(y, policy, now)));
  }

  /** The price gives its group: its feed is admitted and not derived. */
  predicate GivesGroup(o: Price, policy: Policy, group: string) {
    var f := FeedOf(policy, o.feedId);
    f.Some? && !f.value.derived && f.value.group == group
  }

  lemma {:induction false} GroupsMember(eligible: seq<Price>, policy: Policy, group: string)
    ensures group in Groups(eligible, policy) <==> exists o :: o in eligible && GivesGroup(o, policy, group)
  {
    if eligible != [] {
      var (front, last) := (eligible[..|eligible| - 1], eligible[|eligible| - 1]);
      GroupsMember(front, policy, group);
      if o :| o in eligible && GivesGroup(o, policy, group) {
        assert o in front || o == last;
      }
      if o :| o in front && GivesGroup(o, policy, group) {
        assert o in eligible;
      }
      assert last in eligible;
    }
  }

  lemma GroupsAlike(a: seq<Price>, b: seq<Price>, policy: Policy)
    requires multiset(a) == multiset(b)
    ensures Groups(a, policy) == Groups(b, policy)
  {
    forall group ensures group in Groups(a, policy) <==> group in Groups(b, policy) {
      GroupsMember(a, policy, group);
      GroupsMember(b, policy, group);
      forall o ensures o in a <==> o in b {
        SameMembers(a, b, o);
      }
    }
  }

  lemma OnlyElement<T>(a: seq<T>, b: seq<T>)
    requires |a| == |b| == 1 && multiset(a) == multiset(b)
    ensures a == b
  {
    assert a == [a[0]] && b == [b[0]];
    assert a[0] in multiset(b);
  }

  lemma KindAlike(kind: Kind, x: Input, y: Input, policy: Policy, now: int)
    requires Reordered(x, y)
    ensures KindPushes(kind, x, policy, now) == KindPushes(kind, y, policy, now)
  {
    var (a, b) := (Filter(OfKind(kind), x.evidence), Filter(OfKind(kind), y.evidence));
    FilterPermutes(OfKind(kind), x.evidence, y.evidence);
    FilterSize(OfKind(kind), x.evidence, y.evidence);
    if |a| == 1 {
      OnlyElement(a, b);
    }
  }

  lemma {:induction false} EvidenceAlike(kinds: seq<Kind>, x: Input, y: Input, policy: Policy, now: int)
    requires Reordered(x, y)
    ensures EvidencePushes(kinds, x, policy, now) == EvidencePushes(kinds, y, policy, now)
  {
    if kinds != [] {
      EvidenceAlike(kinds[..|kinds| - 1], x, y, policy, now);
      KindAlike(kinds[|kinds| - 1], x, y, policy, now);
    }
  }

  lemma DeadlinesAlike(a: seq<Price>, b: seq<Price>, policy: Policy)
    requires multiset(a) == multiset(b)
    ensures multiset(PricePushes(a, policy).deadlines) == multiset(PricePushes(b, policy).deadlines)
  {
    MapPermutes(PriceDeadline(policy), a, b);
  }

  /** The same pushes, with the deadlines in another order. */
  ghost predicate Alike(a: Pushes, b: Pushes) {
    a.blocked == b.blocked && a.reasons == b.reasons && multiset(a.deadlines) == multiset(b.deadlines)
  }

  lemma JoinAlike(a: Pushes, b: Pushes, c: Pushes, d: Pushes)
    requires Alike(a, b) && Alike(c, d)
    ensures Alike(Join(a, c), Join(b, d))
  {
  }

  lemma PushesAlike(x: Input, y: Input, policy: Policy, now: int)
    requires Reordered(x, y)
    ensures Alike(AllPushes(x, policy, now), AllPushes(y, policy, now))
  {
    var (a, b) := (Eligible(x, policy, now), Eligible(y, policy, now));
    var (start, market) := (StartPushes(x, policy, now), MarketPushes(x, policy, now));
    assert start == StartPushes(y, policy, now) && market == MarketPushes(y, policy, now);
    EligibleAlike(x, y, policy, now);
    DeadlinesAlike(a, b, policy);
    JoinAlike(Join(start, market), Join(start, market), PricePushes(a, policy), PricePushes(b, policy));
    SortedAlike(x, y, policy, now);
    GroupsAlike(a, b, policy);
    var consensus := ConsensusPushes(Sort(PriceAtMost, a), Groups(a, policy), x, policy);
    assert consensus == ConsensusPushes(Sort(PriceAtMost, b), Groups(b, policy), y, policy);
    var (before, after) := (Join(Join(start, market), PricePushes(a, policy)), Join(Join(start, market), PricePushes(b, policy)));
    JoinAlike(before, after, consensus, consensus);
    var kinds := KindsOf(x, policy);
    EvidenceAlike(kinds, x, y, policy, now);
    var evidence := EvidencePushes(kinds, x, policy, now);
    JoinAlike(Join(before, consensus), Join(after, consensus), evidence, evidence);
  }

  lemma ExcludedAlike(x: Input, y: Input, policy: Policy, now: int)
    requires Reordered(x, y)
    ensures multiset(Sort(FeedAtMost, ExcludedOf(x, policy, now))) == multiset(Sort(FeedAtMost, ExcludedOf(y, policy, now)))
  {
    var (a, b) := (Filter(Fails(x, policy, now), x.prices), Filter(Fails(x, policy, now), y.prices));
    FilterPermutes(Fails(x, policy, now), x.prices, y.prices);
    MapPermutes(Exclusion(x, policy, now), a, b);
    forall o | o in y.prices ensures Fails(x, policy, now)(o) == Fails(y, policy, now)(o) {
      FailuresAlike(o, x, y, policy, now);
    }
    FilterAgrees(Fails(x, policy, now), Fails(y, policy, now), y.prices);
    forall o | o in b ensures Exclusion(x, policy, now)(o) == Exclusion(y, policy, now)(o) {
      FailuresAlike(o, x, y, policy, now);
    }
    MapAgrees(Exclusion(x, policy, now), Exclusion(y, policy, now), b);
    SortPermutes(FeedAtMost, ExcludedOf(x, policy, now));
    SortPermutes(FeedAtMost, ExcludedOf(y, policy, now));
  }

  /** Reordering prices and evidence leaves the whole report unchanged, except that excluded prices with one
      feed id may change places. */
  lemma OrderDoesNotMatter(x: Input, y: Input, policy: Policy, now: int)
    requires Reordered(x, y)
    ensures
      var (a, b) := (Evaluate(x, policy, now), Evaluate(y, policy, now));
      && a.(evaluation := a.evaluation.(excluded := b.evaluation.excluded)) == b
      && multiset(a.evaluation.excluded) == multiset(b.evaluation.excluded)
  {
    PushesAlike(x, y, policy, now);
    StartsWithTtl(x, policy, now);
    StartsWithTtl(y, policy, now);
    MinimumPermutes(AllPushes(x, policy, now).deadlines, AllPushes(y, policy, now).deadlines);
    EligibleAlike(x, y, policy, now);
    SortedAlike(x, y, policy, now);
    FeedsAlike(x, y, policy, now);
    GroupsAlike(Eligible(x, policy, now), Eligible(y, policy, now), policy);
    ExcludedAlike(x, y, policy, now);
  }
}
