// The arithmetic of a swap's transaction-risk report: deviations and slippage in basis points, the floor
// they put under the minimum output, and the replay that ties the report to signed prices.
module SwapRisk {
  import opened Wrappers
  import Numerals

  const BPS: int := 10_000
  const BPS_CAP: int := 1_000_000

  const UINT256_LIMIT: nat := Numerals.Pow(2, 256)

  /** The report's amounts are decimals of at most 78 digits. */
  const AMOUNT_LIMIT: nat := Numerals.Pow(10, 78)

  /** `shapeValid`: fields and formats. `callSupported`: the calldata has the committed hash and decodes to a swap
      with the stated profile and deadline. `callMatches`: that swap has the transaction's own tokens, recipient, fee,
      input amount and minimum output, with no price limit. */
  datatype Report = Report(
    shapeValid: bool, callSupported: bool, callMatches: bool, amountIn: nat, amountOutMinimum: nat,
    simulatedAmountOut: nat, oracleExpectedAmountOut: nat, actualTradeAmountUsdMicros: nat,
    assessedTradeAmountUsdMicros: nat, oracleDeviationBps: int, tradeAmountDeviationBps: int, allowedSlippageBps: int)

  function Distance(x: nat, y: nat): nat {
    if x > y then x - y else y - x
  }

  /** The deviation from a baseline, truncated to whole basis points and capped; BigInt division by zero throws. */
  function DifferenceBps(actual: nat, expected: nat): (bps: Option<int>)
    ensures bps.Some? <==> expected > 0
  {
    if expected == 0 then None
    else
      var result := Distance(actual, expected) * BPS / expected;
      Some(if result > BPS_CAP then BPS_CAP else result)
  }

  function SlippageBps(simulated: nat, minimum: nat): int {
    if simulated > minimum then (simulated - minimum) * BPS / simulated else 0
  }

  /** The two transaction amounts are positive and, being decoded from the calldata, unsigned 256-bit numbers. */
  predicate AmountsValid(r: Report) {
    && 0 < r.amountIn < UINT256_LIMIT && 0 < r.amountOutMinimum < UINT256_LIMIT
    && r.simulatedAmountOut < AMOUNT_LIMIT && r.oracleExpectedAmountOut < AMOUNT_LIMIT
    && r.actualTradeAmountUsdMicros < AMOUNT_LIMIT && r.assessedTradeAmountUsdMicros < AMOUNT_LIMIT
  }

  predicate ValidateSwapRiskReport(r: Report) {
    && r.shapeValid && AmountsValid(r) && r.callSupported && r.callMatches
    && r.simulatedAmountOut >= r.amountOutMinimum
    && DifferenceBps(r.simulatedAmountOut, r.oracleExpectedAmountOut) == Some(r.oracleDeviationBps)
    && DifferenceBps(r.actualTradeAmountUsdMicros, r.assessedTradeAmountUsdMicros) == Some(r.tradeAmountDeviationBps)
    && r.allowedSlippageBps == SlippageBps(r.simulatedAmountOut, r.amountOutMinimum)
  }

  datatype Policy = Policy(
    maxReferenceDeviationBps: Option<int>, maxSlippageBps: Option<int>, maxTradeAmountDeviationBps: Option<int>)

  /** An absent limit admits nothing. */
  function Limit(limit: Option<int>): int {
    match limit case None => -1 case Some(n) => n
  }

  predicate WithinPolicy(r: Report, policy: Policy) {
    && r.oracleDeviationBps <= Limit(policy.maxReferenceDeviationBps)
    && r.allowedSlippageBps <= Limit(policy.maxSlippageBps)
    && r.tradeAmountDeviationBps <= Limit(policy.maxTradeAmountDeviationBps)
  }

  // ---------- Truncating division ----------

  lemma Times(q: int, d: int)
    ensures (q + 1) * d == q * d + d
  {
  }

  lemma TimesMonotone(x: int, y: int, d: int)
    requires x <= y && d >= 0
    ensures x * d <= y * d && d * x <= d * y
  {
  }

  lemma Floor(n: nat, d: nat, q: int)
    requires d > 0
    ensures q == n / d <==> q * d <= n < (q + 1) * d
  {
    var e := n / d;
    assert n == e * d + n % d;
    Times(e, d);
    Times(q, d);
    if q * d <= n < (q + 1) * d {
      if q < e {
        TimesMonotone(q + 1, e, d);
      } else if e < q {
        TimesMonotone(e + 1, q, d);
      }
    }
  }

  lemma TimesStrict(x: int, y: int, d: int)
    requires x < y && d > 0
    ensures x * d < y * d && d * x < d * y
  {
  }

  /** The reported deviation, without division: the exact whole number of basis points, or the cap. */
  lemma DifferenceExactly(actual: nat, expected: nat, bps: int)
    requires expected > 0
    ensures DifferenceBps(actual, expected) == Some(bps)
       <==> || (bps < BPS_CAP && bps * expected <= Distance(actual, expected) * BPS < (bps + 1) * expected)
            || (bps == BPS_CAP && BPS_CAP * expected <= Distance(actual, expected) * BPS)
  {
    var n := Distance(actual, expected) * BPS;
    Floor(n, expected, bps);
    Floor(n, expected, n / expected);
    if BPS_CAP * expected <= n {
      if n / expected < BPS_CAP {
        TimesMonotone(n / expected + 1, BPS_CAP, expected);
      }
    } else if n / expected >= BPS_CAP {
      TimesMonotone(BPS_CAP, n / expected, expected);
    }
  }

  // ---------- The floor under the minimum output ----------

  /** What a limit in basis points leaves, less the one lost to truncation. */
  function ShareLeft(limit: int): (share: nat) {
    if limit < 9999 then 9999 - limit else 0
  }

  /** An amount short of a baseline by less than `limit + 1` basis points of it. */
  lemma AboveShare(amount: nat, baseline: nat, limit: int)
    requires 0 <= limit < 9999 && amount <= baseline
    requires (baseline - amount) * BPS < (limit + 1) * baseline
    ensures amount * BPS > baseline * ShareLeft(limit)
  {
    assert (baseline - amount) * BPS == baseline * BPS - amount * BPS;
    assert (limit + 1) * baseline == baseline * BPS - baseline * (9999 - limit);
  }

  lemma NotBelow(amount: nat, baseline: nat, limit: int)
    requires limit >= 0 && amount >= baseline > 0
    ensures amount * BPS > baseline * ShareLeft(limit)
  {
    TimesStrict(ShareLeft(limit), BPS, baseline);
    TimesMonotone(baseline, amount, BPS);
  }

  lemma ExpectedFloor(simulated: nat, expected: nat, deviation: int, limit: int)
    requires expected > 0 && simulated > 0
    requires DifferenceBps(simulated, expected) == Some(deviation) && deviation <= limit
    ensures simulated * BPS > expected * ShareLeft(limit)
  {
    DifferenceExactly(simulated, expected, deviation);
    if simulated >= expected {
      NotBelow(simulated, expected, limit);
    } else if limit < 9999 {
      TimesMonotone(deviation + 1, limit + 1, expected);
      AboveShare(simulated, expected, limit);
    }
  }

  lemma MinimumFloor(simulated: nat, minimum: nat, limit: int)
    requires 0 < minimum <= simulated && SlippageBps(simulated, minimum) <= limit
    ensures minimum * BPS > simulated * ShareLeft(limit)
  {
    if simulated == minimum {
      NotBelow(minimum, simulated, limit);
    } else if limit < 9999 {
      var slippage := SlippageBps(simulated, minimum);
      Floor((simulated - minimum) * BPS, simulated, slippage);
      TimesMonotone(slippage + 1, limit + 1, simulated);
      AboveShare(minimum, simulated, limit);
    }
  }

  lemma Chained(minimum: nat, simulated: nat, expected: nat, a: nat, b: nat)
    requires simulated * BPS > expected * a && minimum * BPS > simulated * b
    ensures minimum * 1_0000_0000 > expected * a * b
  {
    TimesMonotone(expected * a, simulated * BPS, b);
    assert simulated * BPS * b == simulated * b * BPS;
    TimesStrict(simulated * b, minimum * BPS, BPS);
    assert minimum * BPS * BPS == minimum * 1_0000_0000;
  }

  /** Both truncations and the cap together lose less than one basis point each: under any two limits the minimum
      output is above this share of what the oracle expects. */
  lemma MinimumOutputFloor(r: Report, deviationLimit: int, slippageLimit: int)
    requires ValidateSwapRiskReport(r)
    requires r.oracleDeviationBps <= deviationLimit && r.allowedSlippageBps <= slippageLimit
    ensures r.amountOutMinimum * 1_0000_0000
            > r.oracleExpectedAmountOut * ShareLeft(deviationLimit) * ShareLeft(slippageLimit)
  {
    ExpectedFloor(r.simulatedAmountOut, r.oracleExpectedAmountOut, r.oracleDeviationBps, deviationLimit);
    MinimumFloor(r.simulatedAmountOut, r.amountOutMinimum, slippageLimit);
    Chained(r.amountOutMinimum, r.simulatedAmountOut, r.oracleExpectedAmountOut, ShareLeft(deviationLimit),
            ShareLeft(slippageLimit));
  }

  lemma Share(expected: nat, a: nat, b: nat)
    ensures a * b >= 0 && expected * a * b == expected * (a * b)
  {
    TimesMonotone(0, a, b);
  }

  // ---------- How far the floor can be pushed ----------

  lemma Amounts()
    ensures 1_0000_0000 < UINT256_LIMIT && AMOUNT_LIMIT > 1_0000_0000
  {
    assert Numerals.Pow(2, 9) == 512;
    Numerals.PowAdd(2, 9, 9);
    Numerals.PowAdd(2, 18, 9);
    Numerals.PowGrows(2, 27, 256);
    assert Numerals.Pow(10, 4) == 10_000;
    Numerals.PowAdd(10, 4, 4);
    Numerals.PowGrows(10, 9, 78);
  }

  /** The report with these output amounts that a verifier accepts. */
  function ReportOn(minimum: nat, simulated: nat, expected: nat): (r: Report)
    requires expected > 0
  {
    Report(true, true, true, 1, minimum, simulated, expected, 1, 1, DifferenceBps(simulated, expected).value, 0,
           SlippageBps(simulated, minimum))
  }

  lemma ReportOnValid(minimum: nat, simulated: nat, expected: nat)
    requires 0 < minimum < UINT256_LIMIT && minimum <= simulated < AMOUNT_LIMIT && 0 < expected < AMOUNT_LIMIT
    ensures ValidateSwapRiskReport(ReportOn(minimum, simulated, expected))
  {
    Amounts();
  }

  /** A whole number of ten thousands and one, less `limit + 1` of them: nearly the largest loss that is still
      truncated to `limit` basis points. */
  lemma NearlyOneMore(n: nat, limit: nat)
    requires n >= 1 && limit <= 9999
    ensures var (baseline, amount) := (n * BPS + 1, n * (9999 - limit) + 1);
      0 < amount < baseline && (baseline - amount) * BPS / baseline == limit
  {
    var (baseline, amount) := (n * BPS + 1, n * (9999 - limit) + 1);
    TimesMonotone(1, limit + 1, n);
    TimesMonotone(0, 9999 - limit, n);
    assert baseline - amount == n * (limit + 1);
    assert (baseline - amount) * BPS == (baseline - 1) * (limit + 1) == baseline * limit + baseline - (limit + 1);
    assert (limit + 1) * baseline == baseline * limit + baseline;
    Floor((baseline - amount) * BPS, baseline, limit);
  }

  /** The least minimum above the floor, and where it stands to the floor with 10000. */
  lemma LeastAbove(scale: nat, a: nat, b: nat)
    requires scale >= 1
    ensures
      var (expected, minimum) := (1_0000_0000 * scale + 1, scale * a * b + 1);
      a <= 9999 && b <= 9999 ==>
        && (minimum - 1) * 1_0000_0000 <= expected * a * b < minimum * 1_0000_0000
        && minimum * 1_0000_0000 < expected * (a + 1) * (b + 1)
  {
    var (expected, share) := (1_0000_0000 * scale + 1, a * b);
    Share(scale, a, b);
    Share(expected, a, b);
    Share(expected, a + 1, b + 1);
    assert (a + 1) * (b + 1) == share + (a + b + 1);
    assert expected * share == 1_0000_0000 * (scale * share) + share;
    if a <= 9999 && b <= 9999 {
      TimesMonotone(a, 9999, b);
    }
    assert expected * (share + (a + b + 1)) == expected * share + expected * (a + b + 1);
    TimesMonotone(1, a + b + 1, expected);
  }

  lemma Reorder(scale: nat, a: nat)
    ensures BPS * scale * a == scale * a * BPS && BPS * scale * BPS == 1_0000_0000 * scale
  {
  }

  /** The loss of each division is nearly a whole basis point. */
  lemma NearlyOneMoreTwice(scale: nat, deviation: nat, slippage: nat)
    requires scale >= 1 && deviation <= 9998 && slippage <= 9999
    ensures
      var expected, simulated, minimum :=
        1_0000_0000 * scale + 1, scale * (9999 - deviation) * BPS + 1, scale * (9999 - deviation) * (9999 - slippage) + 1;
      && 0 < minimum <= simulated < expected
      && DifferenceBps(simulated, expected) == Some(deviation as int)
      && SlippageBps(simulated, minimum) == slippage
  {
    TimesMonotone(1, 9999 - deviation, scale);
    Reorder(scale, 9999 - deviation);
    NearlyOneMore(BPS * scale, deviation);
    NearlyOneMore(scale * (9999 - deviation), slippage);
  }

  /** The floor is tight: at every deviation below 9999 and every slippage there are validated reports, for
      amounts of any size, whose minimum output is the least integer the floor allows. It is then below the
      floor with 10000 in place of 9999. */
  lemma FloorIsTight(deviation: nat, slippage: nat, scale: nat) returns (r: Report)
    requires deviation <= 9998 && slippage <= 9999
    requires scale >= 1 && 1_0000_0000 * scale + 1 < AMOUNT_LIMIT
    requires scale * (9999 - deviation) * (9999 - slippage) + 1 < UINT256_LIMIT
    ensures ValidateSwapRiskReport(r)
    ensures r.oracleDeviationBps == deviation && r.allowedSlippageBps == slippage
    ensures r.oracleExpectedAmountOut == 1_0000_0000 * scale + 1
    ensures (r.amountOutMinimum - 1) * 1_0000_0000
            <= r.oracleExpectedAmountOut * ShareLeft(deviation) * ShareLeft(slippage)
            < r.amountOutMinimum * 1_0000_0000
    ensures r.amountOutMinimum * 1_0000_0000 < r.oracleExpectedAmountOut * (BPS - deviation) * (BPS - slippage)
  {
    var (a, b) := (9999 - deviation, 9999 - slippage);
    var (expected, simulated, minimum) := (1_0000_0000 * scale + 1, scale * a * BPS + 1, scale * a * b + 1);
    NearlyOneMoreTwice(scale, deviation, slippage);
    LeastAbove(scale, a, b);
    ReportOnValid(minimum, simulated, expected);
    r := ReportOn(minimum, simulated, expected);
  }

  /** From 9999 on a deviation limit guarantees nothing but a positive minimum, whatever is expected ... */
  lemma LeastMinimum(expected: nat) returns (r: Report)
    requires BPS <= expected < AMOUNT_LIMIT
    ensures ValidateSwapRiskReport(r) && r.oracleExpectedAmountOut == expected
    ensures r.oracleDeviationBps == 9999 && r.allowedSlippageBps == 0 && r.amountOutMinimum == 1
  {
    Floor((expected - 1) * BPS, expected, 9999);
    Amounts();
    ReportOnValid(1, 1, expected);
    r := ReportOn(1, 1, expected);
  }

  /** ... yet a larger reported deviation is never a loss: the simulated output is at least twice the expected one. */
  lemma LargeDeviationIsGain(r: Report)
    requires ValidateSwapRiskReport(r)
    ensures r.oracleDeviationBps >= BPS <==> r.simulatedAmountOut >= 2 * r.oracleExpectedAmountOut
    ensures 0 <= r.allowedSlippageBps <= 9999
  {
    var (simulated, expected) := (r.simulatedAmountOut, r.oracleExpectedAmountOut);
    DifferenceExactly(simulated, expected, r.oracleDeviationBps);
    if r.oracleDeviationBps >= BPS {
      TimesMonotone(BPS, r.oracleDeviationBps, expected);
    } else {
      TimesMonotone(r.oracleDeviationBps + 1, BPS, expected);
    }
    var slippage := r.allowedSlippageBps;
    if simulated > r.amountOutMinimum {
      Floor((simulated - r.amountOutMinimum) * BPS, simulated, slippage);
      if slippage >= BPS {
        TimesMonotone(BPS, slippage, simulated);
      } else if slippage < 0 {
        TimesMonotone(slippage + 1, 0, simulated);
      }
    }
  }

  // ---------- Exactly when the reported basis points are a floor ----------

  lemma Remainder(n: nat, d: nat)
    requires d > 0
    ensures n == n / d * d + n % d && 0 <= n % d < d
  {
  }

  /** The reported deviation bounds the simulated output exactly when there is no loss or its division is exact. */
  lemma DeviationIsFloor(simulated: nat, expected: nat, deviation: int)
    requires expected > 0 && DifferenceBps(simulated, expected) == Some(deviation)
    ensures simulated * BPS >= expected * (BPS - deviation)
       <==> simulated >= expected || (expected - simulated) * BPS % expected == 0
    ensures simulated < expected ==>
      simulated * BPS == expected * (BPS - deviation) - (expected - simulated) * BPS % expected
  {
    if simulated < expected {
      var loss := (expected - simulated) * BPS;
      Remainder(loss, expected);
      assert loss == expected * BPS - simulated * BPS;
      Floor(loss, expected, loss / expected);
      if loss / expected > BPS {
        TimesMonotone(BPS + 1, loss / expected, expected);
      }
      assert expected * (BPS - deviation) == expected * BPS - deviation * expected;
    } else {
      DifferenceExactly(simulated, expected, deviation);
      if deviation < 0 {
        TimesMonotone(deviation + 1, 0, expected);
      }
      TimesMonotone(expected, simulated, BPS);
      TimesMonotone(BPS - deviation, BPS, expected);
    }
  }

  /** The reported slippage bounds the minimum output exactly when its division is exact. */
  lemma SlippageIsFloor(simulated: nat, minimum: nat)
    requires 0 < simulated && minimum <= simulated
    ensures minimum * BPS >= simulated * (BPS - SlippageBps(simulated, minimum))
       <==> (simulated - minimum) * BPS % simulated == 0
    ensures minimum * BPS == simulated * (BPS - SlippageBps(simulated, minimum)) - (simulated - minimum) * BPS % simulated
  {
    var loss := (simulated - minimum) * BPS;
    Remainder(loss, simulated);
    assert loss == simulated * BPS - minimum * BPS;
    var slippage := SlippageBps(simulated, minimum);
    assert slippage == loss / simulated;
    assert simulated * (BPS - slippage) == simulated * BPS - slippage * simulated;
  }

  lemma ScaledUp(minimum: nat, simulated: nat, y: int, dropped: int)
    requires minimum * BPS == simulated * y - dropped
    ensures minimum * 1_0000_0000 == simulated * BPS * y - dropped * BPS
  {
    assert minimum * 1_0000_0000 == minimum * BPS * BPS;
    assert (simulated * y - dropped) * BPS == simulated * y * BPS - dropped * BPS;
  }

  lemma Distributed(u: int, v: int, y: int)
    ensures (u - v) * y == u * y - v * y
  {
  }

  lemma BothVanish(lost: nat, y: int, dropped: nat)
    requires y >= 1
    ensures (0 - lost) * y - dropped * BPS >= 0 <==> lost == 0 && dropped == 0
  {
    TimesMonotone(1, y, lost);
    Distributed(0, lost, y);
  }

  /** The two losses together, in one equation. */
  lemma Composed(simulated: nat, minimum: nat, expected: nat, deviation: int, y: int, dropped: int)
    requires minimum * BPS == simulated * y - dropped
    ensures
      var surplus := (simulated - expected) * BPS + expected * deviation;
      && surplus == simulated * BPS - expected * (BPS - deviation)
      && minimum * 1_0000_0000 - expected * (BPS - deviation) * y == surplus * y - dropped * BPS
  {
    var x := BPS - deviation;
    assert (simulated - expected) * BPS + expected * deviation == simulated * BPS - expected * x;
    Distributed(simulated * BPS, expected * x, y);
    ScaledUp(minimum, simulated, y, dropped);
  }

  /** By how much the minimum output is above the floor at the reported basis points. */
  lemma AboveReportedFloor(r: Report)
    requires ValidateSwapRiskReport(r)
    ensures
      var (simulated, expected, y) := (r.simulatedAmountOut, r.oracleExpectedAmountOut, BPS - r.allowedSlippageBps);
      var gain := (simulated - expected) * BPS + expected * r.oracleDeviationBps;
      && y >= 1
      && gain == simulated * BPS - expected * (BPS - r.oracleDeviationBps)
      && r.amountOutMinimum * 1_0000_0000 - expected * (BPS - r.oracleDeviationBps) * y
         == gain * y - (simulated - r.amountOutMinimum) * BPS % simulated * BPS
  {
    SlippageIsFloor(r.simulatedAmountOut, r.amountOutMinimum);
    LargeDeviationIsGain(r);
    Composed(r.simulatedAmountOut, r.amountOutMinimum, r.oracleExpectedAmountOut, r.oracleDeviationBps,
             BPS - r.allowedSlippageBps, (r.simulatedAmountOut - r.amountOutMinimum) * BPS % r.simulatedAmountOut);
  }

  /** With the reported basis points themselves, the floor holds in exactly two cases. With a simulated loss,
      both divisions must be exact; without one, the gain over the oracle must outweigh what the slippage's
      division drops. */
  lemma ReportedFloorExactly(r: Report)
    requires ValidateSwapRiskReport(r)
    ensures
      var (simulated, expected, slippage) := (r.simulatedAmountOut, r.oracleExpectedAmountOut, r.allowedSlippageBps);
      var dropped := (simulated - r.amountOutMinimum) * BPS % simulated;
      r.amountOutMinimum * 1_0000_0000 >= expected * (BPS - r.oracleDeviationBps) * (BPS - slippage)
      <==> if simulated < expected
           then (expected - simulated) * BPS % expected == 0 && dropped == 0
           else dropped * BPS <= ((simulated - expected) * BPS + expected * r.oracleDeviationBps) * (BPS - slippage)
  {
    var (simulated, minimum, expected) := (r.simulatedAmountOut, r.amountOutMinimum, r.oracleExpectedAmountOut);
    AboveReportedFloor(r);
    if simulated < expected {
      DeviationIsFloor(simulated, expected, r.oracleDeviationBps);
      BothVanish((expected - simulated) * BPS % expected, BPS - r.allowedSlippageBps,
                 (simulated - minimum) * BPS % simulated);
    }
  }

  lemma NoDeviation(r: Report)
    requires ValidateSwapRiskReport(r)
    ensures r.oracleDeviationBps >= 0
    ensures r.simulatedAmountOut == r.oracleExpectedAmountOut ==> r.oracleDeviationBps == 0
  {
    DifferenceExactly(r.simulatedAmountOut, r.oracleExpectedAmountOut, r.oracleDeviationBps);
    if r.oracleDeviationBps < 0 {
      TimesMonotone(r.oracleDeviationBps + 1, 0, r.oracleExpectedAmountOut);
    } else if r.oracleDeviationBps > 0 {
      TimesMonotone(1, r.oracleDeviationBps, r.oracleExpectedAmountOut);
    }
  }

  /** Without a simulated loss, an exact slippage division is enough for the floor; and where the simulated output
      is the expected one, the floor holds exactly then. */
  lemma ReportedFloorWithoutLoss(r: Report)
    requires ValidateSwapRiskReport(r) && r.simulatedAmountOut >= r.oracleExpectedAmountOut
    ensures
      var floor := r.oracleExpectedAmountOut * (BPS - r.oracleDeviationBps) * (BPS - r.allowedSlippageBps);
      var exact := (r.simulatedAmountOut - r.amountOutMinimum) * BPS % r.simulatedAmountOut == 0;
      && (exact ==> r.amountOutMinimum * 1_0000_0000 >= floor)
      && (r.simulatedAmountOut == r.oracleExpectedAmountOut ==>
            (r.amountOutMinimum * 1_0000_0000 >= floor <==> exact))
  {
    var (simulated, expected, y) := (r.simulatedAmountOut, r.oracleExpectedAmountOut, BPS - r.allowedSlippageBps);
    var gain := (simulated - expected) * BPS + expected * r.oracleDeviationBps;
    ReportedFloorExactly(r);
    LargeDeviationIsGain(r);
    NoDeviation(r);
    TimesMonotone(0, r.oracleDeviationBps, expected);
    TimesMonotone(0, gain, y);
  }

  // ---------- Replay against a pinned block ----------

  /** The signed prices; None where the attested value is no canonical unsigned number. */
  datatype Signed = Signed(sourcePrice: Option<nat>, destinationPrice: Option<nat>, assessed: Option<nat>,
                           destinationAssessed: Option<nat>)

  datatype Simulation = NoData | Undecodable | Simulated(amountOut: nat)

  /** The answers to the last three calls, None for decimals out of range. */
  datatype Answers = Answers(sourceDecimals: Option<nat>, destinationDecimals: Option<nat>, simulation: Simulation)

  /** What the pinned block answers; None for a reader that throws. */
  datatype Chain = Chain(
    chainMatches: Option<bool>, blockMatches: Option<bool>, codeMatches: Option<bool>, answers: Option<Answers>)

  datatype Code =
    | InvalidRiskReport | InvalidPretradeEvidence | SignedOracleScopeInvalid | SignedAssetScopeMismatch
    | RpcChainMismatch | PinnedBlockMismatch | RouterCodeMismatch | UnsupportedSwapCall | PinnedSimulationUnavailable
    | ReplayedValueOutOfRange | SimulationOrOracleMathMismatch | PinnedSimulationReplayed | ChainReplayUnavailable

  /** A price that is present, in range and not zero. */
  predicate Usable(n: Option<nat>) {
    n.Some? && 0 < n.value < UINT256_LIMIT
  }

  predicate DecimalsValid(n: Option<nat>) {
    n.Some? && n.value <= 36
  }

  predicate SignedScopeValid(signed: Signed) {
    && Usable(signed.sourcePrice) && Usable(signed.destinationPrice) && Usable(signed.assessed)
    && signed.assessed == signed.destinationAssessed
  }

  function Power10(n: nat): (p: nat)
    ensures p > 0
  {
    Numerals.Pow(10, n)
  }

  /** BigInt division of unsigned numbers. */
  function Quotient(n: nat, d: nat): (q: nat)
    requires d > 0
  {
    n / d
  }

  function TradeAmountUsdMicros(amountIn: nat, sourcePrice: nat, sourceDecimals: nat): nat {
    Quotient(amountIn * sourcePrice * 1_000_000, Power10(sourceDecimals) * 100_000_000)
  }

  function ScaledPrice(price: nat, decimals: nat): (p: nat)
    ensures price > 0 ==> p > 0
  {
    if price > 0 then TimesMonotone(1, price, Power10(decimals)); price * Power10(decimals) else 0
  }

  function OracleExpected(amountIn: nat, sourcePrice: nat, destinationPrice: nat, sourceDecimals: nat,
                          destinationDecimals: nat)
    : nat
    requires destinationPrice > 0
  {
    Quotient(amountIn * sourcePrice * Power10(destinationDecimals), ScaledPrice(destinationPrice, sourceDecimals))
  }

  function ReplayArithmetic(r: Report, signed: Signed, answers: Answers): Code
    requires SignedScopeValid(signed)
  {
    if !DecimalsValid(answers.sourceDecimals) || !DecimalsValid(answers.destinationDecimals) || answers.simulation.NoData?
    then PinnedSimulationUnavailable
    else if answers.simulation.Undecodable? then ChainReplayUnavailable
    else
      var (price, sourceDecimals) := (signed.sourcePrice.value, answers.sourceDecimals.value);
      var simulated := answers.simulation.amountOut;
      var actual := TradeAmountUsdMicros(r.amountIn, price, sourceDecimals);
      var expected :=
        OracleExpected(r.amountIn, price, signed.destinationPrice.value, sourceDecimals,
                       answers.destinationDecimals.value);
      if simulated < 1 || actual < 1 || expected < 1 then ReplayedValueOutOfRange
      else if simulated == r.simulatedAmountOut && expected == r.oracleExpectedAmountOut
              && actual == r.actualTradeAmountUsdMicros && signed.assessed.value == r.assessedTradeAmountUsdMicros
              && DifferenceBps(simulated, expected) == Some(r.oracleDeviationBps)
              && DifferenceBps(actual, signed.assessed.value) == Some(r.tradeAmountDeviationBps)
              && SlippageBps(simulated, r.amountOutMinimum) == r.allowedSlippageBps
      then PinnedSimulationReplayed
      else SimulationOrOracleMathMismatch
  }

  function ReplaySwapRisk(r: Report, signed: Option<Signed>, assetsMatch: bool, chain: Chain): Code {
    if !ValidateSwapRiskReport(r) then InvalidRiskReport
    else if signed.None? then InvalidPretradeEvidence
    else if !SignedScopeValid(signed.value) then SignedOracleScopeInvalid
    else if !assetsMatch then SignedAssetScopeMismatch
    else if chain.chainMatches.None? then ChainReplayUnavailable
    else if !chain.chainMatches.value then RpcChainMismatch
    else if chain.blockMatches.None? then ChainReplayUnavailable
    else if !chain.blockMatches.value then PinnedBlockMismatch
    else if chain.codeMatches.None? then ChainReplayUnavailable
    else if !chain.codeMatches.value then RouterCodeMismatch
    else if !r.callSupported then UnsupportedSwapCall
    else if chain.answers.None? then ChainReplayUnavailable
    else ReplayArithmetic(r, signed.value, chain.answers.value)
  }

  /** Every gate before the arithmetic. */
  predicate GatesPass(r: Report, signed: Option<Signed>, assetsMatch: bool, chain: Chain) {
    && ValidateSwapRiskReport(r)
    && signed.Some? && SignedScopeValid(signed.value) && assetsMatch
    && chain.chainMatches == Some(true) && chain.blockMatches == Some(true) && chain.codeMatches == Some(true)
    && chain.answers.Some? && chain.answers.value.simulation.Simulated?
    && DecimalsValid(chain.answers.value.sourceDecimals) && DecimalsValid(chain.answers.value.destinationDecimals)
  }

  /** `n` is the whole part of the fraction. */
  predicate WholePart(n: nat, numerator: nat, denominator: nat) {
    n * denominator <= numerator < (n + 1) * denominator
  }

  /** The reported amounts are the replayed ones, by floor-division bounds. */
  predicate AmountsReplayed(r: Report, signed: Signed, answers: Answers)
    requires SignedScopeValid(signed) && answers.simulation.Simulated?
    requires DecimalsValid(answers.sourceDecimals) && DecimalsValid(answers.destinationDecimals)
  {
    && r.simulatedAmountOut == answers.simulation.amountOut > 0
    && r.assessedTradeAmountUsdMicros == signed.assessed.value
    && r.actualTradeAmountUsdMicros > 0 && r.oracleExpectedAmountOut > 0
    && WholePart(r.actualTradeAmountUsdMicros, r.amountIn * signed.sourcePrice.value * 1_000_000,
                 Power10(answers.sourceDecimals.value) * 100_000_000)
    && WholePart(r.oracleExpectedAmountOut,
                 r.amountIn * signed.sourcePrice.value * Power10(answers.destinationDecimals.value),
                 ScaledPrice(signed.destinationPrice.value, answers.sourceDecimals.value))
  }

  /** A replay passes exactly when the gates do and the four reported amounts are the replayed ones: the basis
      points need no second comparison. The call needs no second check either, so its code never occurs. */
  lemma ReplayedExactly(r: Report, signed: Option<Signed>, assetsMatch: bool, chain: Chain)
    ensures ReplaySwapRisk(r, signed, assetsMatch, chain).PinnedSimulationReplayed?
       <==> GatesPass(r, signed, assetsMatch, chain) && AmountsReplayed(r, signed.value, chain.answers.value)
    ensures !ReplaySwapRisk(r, signed, assetsMatch, chain).UnsupportedSwapCall?
  {
    if GatesPass(r, signed, assetsMatch, chain) {
      var (prices, answers) := (signed.value, chain.answers.value);
      Floor(r.amountIn * prices.sourcePrice.value * 1_000_000, Power10(answers.sourceDecimals.value) * 100_000_000,
            r.actualTradeAmountUsdMicros);
      Floor(r.amountIn * prices.sourcePrice.value * Power10(answers.destinationDecimals.value),
            ScaledPrice(prices.destinationPrice.value, answers.sourceDecimals.value), r.oracleExpectedAmountOut);
    }
  }

  lemma FloorFromWholePart(minimum: nat, expected: nat, numerator: nat, denominator: nat, share: nat)
    requires minimum * 1_0000_0000 > expected * share && numerator < (expected + 1) * denominator && denominator > 0
    ensures (minimum * 1_0000_0000 + share) * denominator > numerator * share
  {
    Times(expected, denominator);
    TimesMonotone(numerator, (expected + 1) * denominator, share);
    TimesStrict(expected * share, minimum * 1_0000_0000, denominator);
    assert (expected + 1) * denominator * share == expected * share * denominator + share * denominator;
  }

  /** From the signed prices to the transaction: a report that is within policy and replays guarantees a minimum
      output above the policy's share of the exact oracle value, up to one unit of the output token. */
  lemma ReplayedMinimumFloor(r: Report, signed: Option<Signed>, assetsMatch: bool, chain: Chain, policy: Policy)
    requires ReplaySwapRisk(r, signed, assetsMatch, chain).PinnedSimulationReplayed? && WithinPolicy(r, policy)
    ensures GatesPass(r, signed, assetsMatch, chain)
    ensures
      var share := ShareLeft(Limit(policy.maxReferenceDeviationBps)) * ShareLeft(Limit(policy.maxSlippageBps));
      var (prices, answers) := (signed.value, chain.answers.value);
      (r.amountOutMinimum * 1_0000_0000 + share) * ScaledPrice(prices.destinationPrice.value,
                                                               answers.sourceDecimals.value)
      > r.amountIn * prices.sourcePrice.value * Power10(answers.destinationDecimals.value) * share
  {
    ReplayedExactly(r, signed, assetsMatch, chain);
    var (d, s) := (Limit(policy.maxReferenceDeviationBps), Limit(policy.maxSlippageBps));
    var (prices, answers) := (signed.value, chain.answers.value);
    MinimumOutputFloor(r, d, s);
    Share(r.oracleExpectedAmountOut, ShareLeft(d), ShareLeft(s));
    FloorFromWholePart(r.amountOutMinimum, r.oracleExpectedAmountOut,
                       r.amountIn * prices.sourcePrice.value * Power10(answers.destinationDecimals.value),
                       ScaledPrice(prices.destinationPrice.value, answers.sourceDecimals.value),
                       ShareLeft(d) * ShareLeft(s));
  }
}
