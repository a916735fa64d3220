// Validation, policy and replay of a swap-risk report on their fields: what is in range, what a policy admits, and
// every code a replay can end with.
module SwapFields {
  import opened SwapRisk
  import opened Wrappers
  import Numerals

  /** The amounts: those of the transaction positive and of 256 bits, the others of 78 digits. */
  lemma AmountsOnFields(r: Report)
    ensures AmountsValid(r)
       <==> && 1 <= r.amountIn < Numerals.Pow(2, 256) && 1 <= r.amountOutMinimum < Numerals.Pow(2, 256)
            && r.simulatedAmountOut < Numerals.Pow(10, 78) && r.oracleExpectedAmountOut < Numerals.Pow(10, 78)
            && r.actualTradeAmountUsdMicros < Numerals.Pow(10, 78)
            && r.assessedTradeAmountUsdMicros < Numerals.Pow(10, 78)
  {
  }

  /** How far two amounts are apart, in whole basis points of the second, at most a million. */
  predicate Deviates(actual: nat, baseline: nat, bps: int) {
    var apart := (if actual < baseline then baseline - actual else actual - baseline) * 10000;
    && baseline > 0
    && (bps < 1000000 ==> bps * baseline <= apart < (bps + 1) * baseline)
    && bps <= 1000000 && (bps == 1000000 ==> bps * baseline <= apart)
  }

  lemma DeviatesExactly(actual: nat, baseline: nat, bps: int)
    ensures DifferenceBps(actual, baseline) == Some(bps) <==> Deviates(actual, baseline, bps)
  {
    if baseline > 0 {
      DifferenceExactly(actual, baseline, bps);
    }
  }

  /** How far the minimum is below the simulated output, in whole basis points of that output. */
  predicate Slips(simulated: nat, minimum: nat, bps: int) {
    if simulated <= minimum then bps == 0
    else bps * simulated <= (simulated - minimum) * 10000 < (bps + 1) * simulated
  }

  lemma SlipsExactly(simulated: nat, minimum: nat, bps: int)
    ensures SlippageBps(simulated, minimum) == bps <==> Slips(simulated, minimum, bps)
  {
    if simulated > minimum {
      Floor((simulated - minimum) * 10000, simulated, bps);
    }
  }

  /** A report validates exactly when it is well formed, its call is the transaction's, it simulates at least the
      minimum, and its three figures are those of its amounts. */
  lemma ValidatedOnFields(r: Report)
    ensures ValidateSwapRiskReport(r)
       <==> && r.shapeValid && r.callSupported && r.callMatches && AmountsValid(r)
            && r.amountOutMinimum <= r.simulatedAmountOut
            && Deviates(r.simulatedAmountOut, r.oracleExpectedAmountOut, r.oracleDeviationBps)
            && Deviates(r.actualTradeAmountUsdMicros, r.assessedTradeAmountUsdMicros, r.tradeAmountDeviationBps)
            && Slips(r.simulatedAmountOut, r.amountOutMinimum, r.allowedSlippageBps)
  {
    DeviatesExactly(r.simulatedAmountOut, r.oracleExpectedAmountOut, r.oracleDeviationBps);
    DeviatesExactly(r.actualTradeAmountUsdMicros, r.assessedTradeAmountUsdMicros, r.tradeAmountDeviationBps);
    SlipsExactly(r.simulatedAmountOut, r.amountOutMinimum, r.allowedSlippageBps);
  }

  lemma WholePositive(n: nat, d: nat)
    requires d > 0
    ensures n / d >= 0
  {
  }

  lemma DeviationPositive(actual: nat, baseline: nat, bps: int)
    requires DifferenceBps(actual, baseline) == Some(bps)
    ensures bps >= 0
  {
    WholePositive(Distance(actual, baseline) * BPS, baseline);
  }

  lemma SlippagePositive(simulated: nat, minimum: nat)
    ensures SlippageBps(simulated, minimum) >= 0
  {
    if simulated > minimum {
      WholePositive((simulated - minimum) * BPS, simulated);
    }
  }

  /** A validated report is within a policy exactly when the policy sets all three limits and none is exceeded. */
  lemma PolicyOnFields(r: Report, policy: Policy)
    requires ValidateSwapRiskReport(r)
    ensures WithinPolicy(r, policy)
       <==> && policy.maxReferenceDeviationBps.Some? && r.oracleDeviationBps <= policy.maxReferenceDeviationBps.value
            && policy.maxSlippageBps.Some? && r.allowedSlippageBps <= policy.maxSlippageBps.value
            && policy.maxTradeAmountDeviationBps.Some?
            && r.tradeAmountDeviationBps <= policy.maxTradeAmountDeviationBps.value
  {
    DeviationPositive(r.simulatedAmountOut, r.oracleExpectedAmountOut, r.oracleDeviationBps);
    DeviationPositive(r.actualTradeAmountUsdMicros, r.assessedTradeAmountUsdMicros, r.tradeAmountDeviationBps);
    SlippagePositive(r.simulatedAmountOut, r.amountOutMinimum);
  }

  // ---------- The codes of a replay ----------

  predicate PositiveUint256(n: Option<nat>) {
    match n case None => false case Some(v) => 1 <= v < Numerals.Pow(2, 256)
  }

  /** Both prices and the assessed amount are signed, the amount twice. */
  predicate Priced(signed: Signed) {
    && PositiveUint256(signed.sourcePrice) && PositiveUint256(signed.destinationPrice)
    && PositiveUint256(signed.assessed) && signed.destinationAssessed == signed.assessed
  }

  lemma PricedExactly(signed: Signed)
    ensures SignedScopeValid(signed) <==> Priced(signed)
  {
  }

  /** The checks before the chain is asked. */
  predicate InScope(r: Report, signed: Option<Signed>, assetsMatch: bool) {
    ValidateSwapRiskReport(r) && signed.Some? && Priced(signed.value) && assetsMatch
  }

  /** The codes of those checks. */
  lemma ScopeCodes(r: Report, signed: Option<Signed>, assetsMatch: bool, chain: Chain)
    ensures var code := ReplaySwapRisk(r, signed, assetsMatch, chain);
      && (code == InvalidRiskReport <==> !ValidateSwapRiskReport(r))
      && (code == InvalidPretradeEvidence <==> ValidateSwapRiskReport(r) && signed == None)
      && (code == SignedOracleScopeInvalid <==> ValidateSwapRiskReport(r) && signed.Some? && !Priced(signed.value))
      && (code == SignedAssetScopeMismatch
          <==> ValidateSwapRiskReport(r) && signed.Some? && Priced(signed.value) && !assetsMatch)
  {
    if signed.Some? {
      PricedExactly(signed.value);
    }
  }

  /** The chain gives the pinned block and code, in this order. */
  predicate Pinned(chain: Chain) {
    chain.chainMatches == Some(true) && chain.blockMatches == Some(true) && chain.codeMatches == Some(true)
  }

  /** Both tokens have at most 36 decimals. */
  predicate Decimals(answers: Answers) {
    match (answers.sourceDecimals, answers.destinationDecimals)
    case (Some(s), Some(d)) => s <= 36 && d <= 36
    case _ => false
  }

  /** The codes of the questions to the chain; a reader that throws makes the replay unavailable. */
  lemma ChainCodes(r: Report, signed: Option<Signed>, assetsMatch: bool, chain: Chain)
    requires InScope(r, signed, assetsMatch)
    ensures var code := ReplaySwapRisk(r, signed, assetsMatch, chain);
      && (code == RpcChainMismatch <==> chain.chainMatches == Some(false))
      && (code == PinnedBlockMismatch <==> chain.chainMatches == Some(true) && chain.blockMatches == Some(false))
      && (code == RouterCodeMismatch
          <==> chain.chainMatches == Some(true) && chain.blockMatches == Some(true) && chain.codeMatches == Some(false))
      && (code == ChainReplayUnavailable
          <==> || chain.chainMatches == None
               || (chain.chainMatches == Some(true) && chain.blockMatches == None)
               || (chain.chainMatches == Some(true) && chain.blockMatches == Some(true) && chain.codeMatches == None)
               || (Pinned(chain) && chain.answers == None)
               || (Pinned(chain) && chain.answers.Some? && Decimals(chain.answers.value)
                   && chain.answers.value.simulation == Undecodable))
  {
    PricedExactly(signed.value);
  }

  /** The amounts that the chain and the signed prices give, without division: `usd` in millionths, `out` in units of
      the output token. */
  predicate Replayed(amountIn: nat, signed: Signed, answers: Answers, usd: nat, out: nat)
    requires Priced(signed) && Decimals(answers)
  {
    && usd * (Numerals.Pow(10, answers.sourceDecimals.value) * 100_000_000)
       <= amountIn * signed.sourcePrice.value * 1_000_000
       < (usd + 1) * (Numerals.Pow(10, answers.sourceDecimals.value) * 100_000_000)
    && out * (signed.destinationPrice.value * Numerals.Pow(10, answers.sourceDecimals.value))
       <= amountIn * signed.sourcePrice.value * Numerals.Pow(10, answers.destinationDecimals.value)
       < (out + 1) * (signed.destinationPrice.value * Numerals.Pow(10, answers.sourceDecimals.value))
  }

  lemma AmountsAreReplayed(amountIn: nat, signed: Signed, answers: Answers)
    requires Priced(signed) && Decimals(answers)
    ensures Replayed(amountIn, signed, answers,
                     TradeAmountUsdMicros(amountIn, signed.sourcePrice.value, answers.sourceDecimals.value),
                     OracleExpected(amountIn, signed.sourcePrice.value, signed.destinationPrice.value,
                                    answers.sourceDecimals.value, answers.destinationDecimals.value))
  {
    var (n, m) := (amountIn * signed.sourcePrice.value * 1_000_000,
                   amountIn * signed.sourcePrice.value * Numerals.Pow(10, answers.destinationDecimals.value));
    var d := Power10(answers.sourceDecimals.value) * 100_000_000;
    var e := ScaledPrice(signed.destinationPrice.value, answers.sourceDecimals.value);
    Floor(n, d, n / d);
    Floor(m, e, m / e);
  }

  /** The codes of the arithmetic: no simulation, an amount of zero, another amount than reported, or a pass. */
  lemma ArithmeticCodes(r: Report, signed: Option<Signed>, assetsMatch: bool, chain: Chain) returns (usd: nat, out: nat)
    requires InScope(r, signed, assetsMatch) && Pinned(chain) && chain.answers.Some?
    ensures var (code, answers) := (ReplaySwapRisk(r, signed, assetsMatch, chain), chain.answers.value);
      && (code == PinnedSimulationUnavailable <==> !Decimals(answers) || answers.simulation == NoData)
      && (Decimals(answers) && answers.simulation.Simulated? ==>
            && Replayed(r.amountIn, signed.value, answers, usd, out)
            && (code == ReplayedValueOutOfRange <==> answers.simulation.amountOut == 0 || usd == 0 || out == 0)
            && (code == PinnedSimulationReplayed
                <==> && answers.simulation.amountOut > 0 && usd > 0 && out > 0
                     && r.simulatedAmountOut == answers.simulation.amountOut && r.oracleExpectedAmountOut == out
                     && r.actualTradeAmountUsdMicros == usd
                     && signed.value.assessed == Some(r.assessedTradeAmountUsdMicros))
            && code in {ReplayedValueOutOfRange, PinnedSimulationReplayed, SimulationOrOracleMathMismatch})
  {
    PricedExactly(signed.value);
    var answers := chain.answers.value;
    usd, out := 0, 0;
    if Decimals(answers) && answers.simulation.Simulated? {
      AmountsAreReplayed(r.amountIn, signed.value, answers);
      usd := TradeAmountUsdMicros(r.amountIn, signed.value.sourcePrice.value, answers.sourceDecimals.value);
      out := OracleExpected(r.amountIn, signed.value.sourcePrice.value, signed.value.destinationPrice.value,
                            answers.sourceDecimals.value, answers.destinationDecimals.value);
    }
  }
}
