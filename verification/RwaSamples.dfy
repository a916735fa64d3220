// Accepted inputs on which the evaluator does what its guarantees leave open: the consensus moves with one
// outlier more than they tolerate, and an ALLOW falls inside its window.
module RwaSamples {
  import opened Lists
  import opened RwaConsensus
  import opened RwaEvaluator
  import opened RwaGuarantees
  import opened RwaOrder
  import opened Sorting
  import opened Wrappers
  import Numerals

  // ---------- An instrument with one feed for each quote ----------

  datatype Quote = Quote(priceE8: nat, retrievedAt: int)

  /** Forty hexadecimal digits. */
  const ADDRESS: string := "0x0123456789abcdef0123456789abcdef01234567"

  const INSTRUMENT := Instrument(true, "fund", "issuer", 1, ADDRESS, "XNYS", "fund", "USD", UnderlyingSpot, "v1")

  /** Names of different lengths. */
  function Name(i: nat): (s: string)
    ensures |s| == i + 1
  {
    seq(i + 1, _ => 'f')
  }

  function Feeds(n: nat): (feeds: map<string, Feed>)
    ensures |feeds| <= n
    ensures forall i: nat :: i < n ==> Name(i) in feeds && feeds[Name(i)] == Feed(Name(i), false, 0)
  {
    if n == 0 then map[]
    else
      assert forall i: nat :: i < n - 1 ==> |Name(i)| < |Name(n - 1)|;
      Feeds(n - 1)[Name(n - 1) := Feed(Name(n - 1), false, 0)]
  }

  function PriceOf(quotes: seq<Quote>, t: int, i: nat): Price
    requires i < |quotes|
  {
    Price(true, Name(i), IdOf(INSTRUMENT), 0, "USD", UnderlyingSpot, "v1", Regular, quotes[i].priceE8, t,
          quotes[i].retrievedAt)
  }

  function PricesOf(quotes: seq<Quote>, t: int): (prices: seq<Price>)
    ensures |prices| == |quotes|
  {
    seq(|quotes|, i requires 0 <= i < |quotes| => PriceOf(quotes, t, i))
  }

  /** Bought on a clear market, observed at `t` like every price. */
  function InputOf(quotes: seq<Quote>, t: int): Input {
    Input(INSTRUMENT, Request(true, IdOf(INSTRUMENT), Buy, 1, ADDRESS), PricesOf(quotes, t),
          Some(Market(true, IdOf(INSTRUMENT), "XNYS", "venue", Regular, NoHalt, NoAction, t, t + 86400)), [])
  }

  function PolicyOf(n: nat, maxSpreadBps: int): Policy {
    Policy(true, IdOf(INSTRUMENT), 2, 2, 86400, 86400, maxSpreadBps, 300, Feeds(n), ["venue"], _ => [],
           map[Buy := Rule(true, [Regular], [])])
  }

  /** Quotes the policy can admit, at times the evaluator accepts. */
  predicate Admissible(quotes: seq<Quote>, t: int) {
    && |quotes| <= 32 && 1 <= t <= LATEST
    && (forall i :: 0 <= i < |quotes| ==> quotes[i].priceE8 > 0 && t <= quotes[i].retrievedAt <= LATEST)
  }

  lemma SampleAccepted(quotes: seq<Quote>, t: int, maxSpreadBps: int, now: int)
    requires Admissible(quotes, t) && 0 <= maxSpreadBps <= 10000 && 1 <= now <= LATEST
    ensures Accepted(InputOf(quotes, t), PolicyOf(|quotes|, maxSpreadBps), now)
    ensures PriceRequired(InputOf(quotes, t), PolicyOf(|quotes|, maxSpreadBps))
  {
    var policy := PolicyOf(|quotes|, maxSpreadBps);
    assert ValidRule(Buy, policy.actions[Buy]);
    assert ValidPolicy(policy);
  }

  /** No feed is quoted twice. */
  lemma FeedOnce(quotes: seq<Quote>, t: int, i: nat)
    requires i < |quotes|
    ensures |Filter(SameFeed(Name(i)), PricesOf(quotes, t))| == 1
  {
    var prices := PricesOf(quotes, t);
    var (before, after) := (prices[..i], prices[i + 1..]);
    assert prices == before + [prices[i]] + after;
    forall j | 0 <= j < |before| ensures !SameFeed(Name(i))(before[j]) {
      assert |before[j].feedId| == j + 1;
    }
    forall j | 0 <= j < |after| ensures !SameFeed(Name(i))(after[j]) {
      assert |after[j].feedId| == i + 1 + j + 1;
    }
    FilterNone(SameFeed(Name(i)), before);
    FilterNone(SameFeed(Name(i)), after);
    FilterAppend(SameFeed(Name(i)), before + [prices[i]], after);
    FilterSnoc(SameFeed(Name(i)), before, prices[i]);
  }

  lemma QuoteCounts(quotes: seq<Quote>, t: int, maxSpreadBps: int, now: int, i: nat)
    requires Admissible(quotes, t) && i < |quotes| && t <= now < t + 86400
    ensures Counts(InputOf(quotes, t), PolicyOf(|quotes|, maxSpreadBps), now)(PriceOf(quotes, t, i))
       <==> quotes[i].retrievedAt <= now
  {
    var (input, policy) := (InputOf(quotes, t), PolicyOf(|quotes|, maxSpreadBps));
    FeedOnce(quotes, t, i);
    NoFailures(PriceOf(quotes, t, i), input, policy, now);
  }

  lemma QuoteEligible(quotes: seq<Quote>, t: int, maxSpreadBps: int, now: int, i: nat)
    requires Admissible(quotes, t) && i < |quotes| && t <= now < t + 86400
    ensures PriceOf(quotes, t, i) in Eligible(InputOf(quotes, t), PolicyOf(|quotes|, maxSpreadBps), now)
       <==> quotes[i].retrievedAt <= now
  {
    var (input, policy) := (InputOf(quotes, t), PolicyOf(|quotes|, maxSpreadBps));
    QuoteCounts(quotes, t, maxSpreadBps, now, i);
    FilterMember(Counts(input, policy, now), input.prices, PriceOf(quotes, t, i));
    assert input.prices[i] == PriceOf(quotes, t, i);
  }

  lemma AllQuotesEligible(quotes: seq<Quote>, t: int, maxSpreadBps: int, now: int)
    requires Admissible(quotes, t) && t <= now < t + 86400
    requires forall i :: 0 <= i < |quotes| ==> quotes[i].retrievedAt <= now
    ensures Eligible(InputOf(quotes, t), PolicyOf(|quotes|, maxSpreadBps), now) == PricesOf(quotes, t)
  {
    var (input, policy) := (InputOf(quotes, t), PolicyOf(|quotes|, maxSpreadBps));
    forall i | 0 <= i < |input.prices| ensures Counts(input, policy, now)(input.prices[i]) {
      QuoteCounts(quotes, t, maxSpreadBps, now, i);
    }
    FilterAll(Counts(input, policy, now), input.prices);
  }

  lemma TwoGroups(eligible: seq<Price>, policy: Policy, a: Price, b: Price)
    requires a in eligible && b in eligible && a.feedId != b.feedId
    requires GivesGroup(a, policy, a.feedId) && GivesGroup(b, policy, b.feedId)
    ensures |eligible| >= 2 && |Groups(eligible, policy)| >= 2
  {
    GroupsMember(eligible, policy, a.feedId);
    GroupsMember(eligible, policy, b.feedId);
    var two := {a.feedId, b.feedId};
    assert Groups(eligible, policy) == two + (Groups(eligible, policy) - two);
  }

  /** A sample with two quotes retrieved is allowed exactly when its prices agree. */
  lemma SampleVerdict(quotes: seq<Quote>, t: int, maxSpreadBps: int, now: int)
    requires Admissible(quotes, t) && t <= now < t + 86400
    requires |quotes| >= 2 && quotes[0].retrievedAt <= now && quotes[1].retrievedAt <= now
    ensures
      var (input, policy) := (InputOf(quotes, t), PolicyOf(|quotes|, maxSpreadBps));
      Evaluate(input, policy, now).evaluation.verdict
      == if Disagrees(Sort(PriceAtMost, Eligible(input, policy, now)), policy) then Block else Allow
  {
    var (input, policy) := (InputOf(quotes, t), PolicyOf(|quotes|, maxSpreadBps));
    var eligible := Eligible(input, policy, now);
    var (a, b) := (PriceOf(quotes, t, 0), PriceOf(quotes, t, 1));
    QuoteEligible(quotes, t, maxSpreadBps, now, 0);
    QuoteEligible(quotes, t, maxSpreadBps, now, 1);
    TwoGroups(eligible, policy, a, b);
    assert PriceRequired(input, policy) && MarketClear(input, policy, now);
    AllowExactly(input, policy, now);
    BlockExactly(input, policy, now);
  }

  // ---------- One outlier more ----------

  function Split(n: nat, inside: nat, outlier: nat, t: int): (quotes: seq<Quote>)
    ensures |quotes| == n
  {
    seq(n, i requires 0 <= i < n => Quote(if i < n / 2 then inside else outlier, t))
  }

  lemma SplitPrice(n: nat, inside: nat, outlier: nat, t: int, i: nat)
    requires i < n
    ensures PricesOf(Split(n, inside, outlier, t), t)[i].priceE8 == if i < n / 2 then inside else outlier
  {
  }

  lemma SplitOutside(n: nat, inside: nat, outlier: nat, t: int)
    requires n >= 1 && inside < outlier
    ensures |Filter(Outside(inside, inside), PricesOf(Split(n, inside, outlier, t), t))| == (n - 1) / 2 + 1
    ensures |Filter(Outside(outlier, outlier), PricesOf(Split(n, inside, outlier, t), t))| == n / 2
  {
    var prices := PricesOf(Split(n, inside, outlier, t), t);
    forall i | 0 <= i < n
      ensures Outside(inside, inside)(prices[i]) <==> i >= n / 2
      ensures Outside(outlier, outlier)(prices[i]) <==> i < n / 2
    {
      SplitPrice(n, inside, outlier, t, i);
    }
    FilterTail(Outside(inside, inside), prices, n / 2);
    FilterHead(Outside(outlier, outlier), prices, n / 2);
  }

  lemma SplitPrices(n: nat, inside: nat, outlier: nat, t: int, o: Price)
    requires o in PricesOf(Split(n, inside, outlier, t), t)
    ensures o.priceE8 == inside || o.priceE8 == outlier
  {
    var prices := PricesOf(Split(n, inside, outlier, t), t);
    var i :| 0 <= i < n && prices[i] == o;
    SplitPrice(n, inside, outlier, t, i);
  }

  /** If the median were the inside price, more than half of the prices would be. */
  lemma SplitMedian(n: nat, inside: nat, outlier: nat, t: int)
    requires n >= 1 && inside < outlier
    ensures Median(Sort(PriceAtMost, PricesOf(Split(n, inside, outlier, t), t))) == Some(outlier)
  {
    var prices := PricesOf(Split(n, inside, outlier, t), t);
    var (sorted, outside) := (Sort(PriceAtMost, prices), Outside(outlier, outlier));
    SortPermutes(PriceAtMost, prices);
    SortMember(prices, sorted[n / 2]);
    SplitPrices(n, inside, outlier, t, sorted[n / 2]);
    if sorted[n / 2].priceE8 == inside {
      forall i | 0 <= i < n / 2 + 1 ensures outside(sorted[i]) {
        SortedPrices(prices, i, n / 2);
      }
      FilterStretch(outside, sorted, 0, n / 2 + 1);
      FilterSize(outside, sorted, prices);
      SplitOutside(n, inside, outlier, t);
    }
  }

  /** At the widest spread a policy may allow, no prices disagree with their highest. */
  lemma SplitAgrees(n: nat, inside: nat, outlier: nat, t: int, policy: Policy)
    requires n >= 1 && inside < outlier && policy.maxSpreadBps == 10000
    ensures !Disagrees(Sort(PriceAtMost, PricesOf(Split(n, inside, outlier, t), t)), policy)
  {
    var prices := PricesOf(Split(n, inside, outlier, t), t);
    SplitMedian(n, inside, outlier, t);
    DisagreesExactly(prices, policy);
    forall a, b | a in prices && b in prices ensures !FarApart(a, b, outlier, policy) {
      SplitPrices(n, inside, outlier, t, a);
    }
  }

  /** The bound on outliers is the best there is: for every number of eligible prices, even or odd, there is an
      accepted input with one outlier more whose consensus price is the outlier, and whose verdict is ALLOW. */
  lemma OneMoreOutlierMoves(n: nat, inside: nat, outlier: nat, now: int) returns (input: Input, policy: Policy)
    requires 1 <= n <= 32 && 0 < inside < outlier < Numerals.Pow(2, 256) && 1 <= now <= LATEST
    ensures Accepted(input, policy, now)
    ensures |Eligible(input, policy, now)| == n
    ensures |Filter(Outside(inside, inside), Eligible(input, policy, now))| == (n - 1) / 2 + 1
    ensures Evaluate(input, policy, now).evaluation.consensusPriceE8 == Some(outlier)
    ensures n >= 2 ==> Evaluate(input, policy, now).evaluation.verdict.Allow?
  {
    var quotes := Split(n, inside, outlier, now);
    input, policy := InputOf(quotes, now), PolicyOf(n, 10000);
    SampleAccepted(quotes, now, 10000, now);
    AllQuotesEligible(quotes, now, 10000, now);
    SplitOutside(n, inside, outlier, now);
    SplitMedian(n, inside, outlier, now);
    if n >= 2 {
      SampleVerdict(quotes, now, 10000, now);
      SplitAgrees(n, inside, outlier, now, policy);
    }
  }

  // ---------- An ALLOW that falls inside its window ----------

  lemma SamplePriceDeadlines(quotes: seq<Quote>, t: int, maxSpreadBps: int, d: int)
    requires d in PricePushes(Eligible(InputOf(quotes, t), PolicyOf(|quotes|, maxSpreadBps), t),
                              PolicyOf(|quotes|, maxSpreadBps)).deadlines
    ensures d == t + 86400
  {
    var (input, policy) := (InputOf(quotes, t), PolicyOf(|quotes|, maxSpreadBps));
    MapMember(PriceDeadline(policy), Eligible(input, policy, t), d);
    var o :| o in Eligible(input, policy, t) && PriceDeadline(policy)(o) == d;
    EligibleMember(o, input, policy, t);
  }

  lemma SampleDeadline(quotes: seq<Quote>, t: int, maxSpreadBps: int, d: int)
    requires d in AllPushes(InputOf(quotes, t), PolicyOf(|quotes|, maxSpreadBps), t).deadlines
    ensures d >= t + 300
  {
    var (input, policy) := (InputOf(quotes, t), PolicyOf(|quotes|, maxSpreadBps));
    PartsJoin(input, policy, t);
    if d in Parts(input, policy, t)[2].deadlines {
      SamplePriceDeadlines(quotes, t, maxSpreadBps, d);
    }
  }

  lemma SampleDeadlines(quotes: seq<Quote>, t: int, maxSpreadBps: int)
    ensures Evaluate(InputOf(quotes, t), PolicyOf(|quotes|, maxSpreadBps), t).validUntil == t + 300
  {
    var (input, policy) := (InputOf(quotes, t), PolicyOf(|quotes|, maxSpreadBps));
    StartsWithTtl(input, policy, t);
    MinimumExactly(AllPushes(input, policy, t).deadlines);
    SampleDeadline(quotes, t, maxSpreadBps, Evaluate(input, policy, t).validUntil);
  }

  function FallQuotes(t: int): seq<Quote> {
    [Quote(100, t), Quote(100, t), Quote(200, t + 1)]
  }

  lemma FallAdmissible(t: int)
    requires 1 <= t < LATEST
    ensures Admissible(FallQuotes(t), t)
  {
  }

  lemma AgreeBefore(quotes: seq<Quote>, t: int, input: Input, policy: Policy)
    requires 1 <= t < LATEST && quotes == FallQuotes(t)
    requires input == InputOf(quotes, t) && policy == PolicyOf(3, 0)
    ensures !Disagrees(Sort(PriceAtMost, Eligible(input, policy, t)), policy)
  {
    var eligible := Eligible(input, policy, t);
    QuoteEligible(quotes, t, 0, t, 0);
    forall o | o in eligible ensures o.priceE8 == 100 {
      EligibleMember(o, input, policy, t);
    }
    DisagreesExactly(eligible, policy);
  }

  lemma DisagreeAfter(quotes: seq<Quote>, t: int, input: Input, policy: Policy)
    requires 1 <= t < LATEST && quotes == FallQuotes(t)
    requires input == InputOf(quotes, t) && policy == PolicyOf(3, 0)
    ensures Disagrees(Sort(PriceAtMost, Eligible(input, policy, t + 1)), policy)
  {
    var eligible := Eligible(input, policy, t + 1);
    QuoteEligible(quotes, t, 0, t + 1, 0);
    QuoteEligible(quotes, t, 0, t + 1, 2);
    DisagreesExactly(eligible, policy);
    assert FarApart(PriceOf(quotes, t, 2), PriceOf(quotes, t, 0), Median(Sort(PriceAtMost, eligible)).value, policy);
  }

  lemma FallBefore(quotes: seq<Quote>, t: int)
    requires 1 <= t < LATEST && quotes == FallQuotes(t)
    ensures Evaluate(InputOf(quotes, t), PolicyOf(3, 0), t).evaluation.verdict == Allow
  {
    assert !Disagrees(Sort(PriceAtMost, Eligible(InputOf(quotes, t), PolicyOf(3, 0), t)), PolicyOf(3, 0)) by {
      AgreeBefore(quotes, t, InputOf(quotes, t), PolicyOf(3, 0));
    }
    FallAdmissible(t);
    SampleVerdict(quotes, t, 0, t);
  }

  lemma FallAfter(quotes: seq<Quote>, t: int)
    requires 1 <= t < LATEST && quotes == FallQuotes(t)
    ensures Evaluate(InputOf(quotes, t), PolicyOf(3, 0), t + 1).evaluation.verdict == Block
  {
    assert Disagrees(Sort(PriceAtMost, Eligible(InputOf(quotes, t), PolicyOf(3, 0), t + 1)), PolicyOf(3, 0)) by {
      DisagreeAfter(quotes, t, InputOf(quotes, t), PolicyOf(3, 0));
    }
    FallAdmissible(t);
    SampleVerdict(quotes, t, 0, t + 1);
  }

  /** At any time there is an accepted input that is an ALLOW, and a BLOCK one second later, well inside the
      window of the first report: a price retrieved in between disagrees. */
  lemma AllowCanFall(t: int) returns (input: Input, policy: Policy)
    requires 1 <= t < LATEST
    ensures Accepted(input, policy, t) && Accepted(input, policy, t + 1)
    ensures Evaluate(input, policy, t).validUntil == t + 300
    ensures Evaluate(input, policy, t).evaluation.verdict.Allow?
    ensures Evaluate(input, policy, t + 1).evaluation.verdict.Block?
  {
    var quotes := FallQuotes(t);
    input, policy := InputOf(quotes, t), PolicyOf(3, 0);
    SampleAccepted(quotes, t, 0, t);
    SampleAccepted(quotes, t, 0, t + 1);
    SampleDeadlines(quotes, t, 0);
    FallBefore(quotes, t);
    FallAfter(quotes, t);
  }
}
