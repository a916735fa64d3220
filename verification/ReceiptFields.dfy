// The binding, the outcomes and the compliance of a receipt, restated on the fields of intent, execution and window:
// what each reason code says, what a bound execution agrees with, and in which order the codes come.
module ReceiptFields {
  import opened Ascii
  import opened Distinct
  import opened ReceiptVerdicts
  import opened Wrappers

  // ---------- Comparisons ----------

  predicate AlikeChars(a: char, b: char) {
    || a == b
    || ('A' <= a <= 'Z' && a as int + 32 == b as int)
    || ('A' <= b <= 'Z' && b as int + 32 == a as int)
  }

  /** The same text but for the case of its letters. */
  predicate Alike(x: string, y: string) {
    |x| == |y| && forall i :: 0 <= i < |x| ==> AlikeChars(x[i], y[i])
  }

  /** An absent member compares like the empty text. */
  predicate IsText(x: Option<string>, y: string) {
    x == Some(y) || (x == None && y == "")
  }

  predicate IsAlike(x: Option<string>, y: string) {
    match x case Some(s) => Alike(s, y) case None => y == ""
  }

  predicate BothAlike(x: Option<string>, y: Option<string>) {
    match y case Some(s) => IsAlike(x, s) case None => IsAlike(x, "")
  }

  lemma {:induction false} LettersAlike(x: string, y: string)
    ensures SameLetters(x, y) <==> Alike(x, y)
  {
    if x != "" && y != "" {
      LettersAlike(x[1..], y[1..]);
      assert AlikeChars(x[0], y[0]) <==> LowerChar(x[0]) == LowerChar(y[0]);
      if Alike(x[1..], y[1..]) && AlikeChars(x[0], y[0]) {
        forall i | 0 <= i < |x| ensures AlikeChars(x[i], y[i]) {
          assert i > 0 ==> x[i] == x[1..][i - 1] && y[i] == y[1..][i - 1];
        }
      }
      if Alike(x, y) {
        forall i | 0 <= i < |x[1..]| ensures AlikeChars(x[1..][i], y[1..][i]) {
          assert x[1..][i] == x[i + 1] && y[1..][i] == y[i + 1];
        }
      }
    }
  }

  lemma SameAlike(x: Option<string>, y: Option<string>)
    ensures Same(x, y) <==> BothAlike(x, y)
    ensures TextOf(x) == TextOf(y) <==> match y case Some(s) => IsText(x, s) case None => IsText(x, "")
  {
    LettersAlike(TextOf(x), TextOf(y));
  }

  /** Solana addresses are compared as they are, other identities without regard to case. */
  predicate SameParty(profile: Profile, x: Option<string>, y: string) {
    if profile == SolanaTransaction then IsText(x, y) else IsAlike(x, y)
  }

  lemma PartySame(intent: Intent, x: Option<string>, y: string)
    ensures SameIdentity(intent, x, Some(y)) <==> SameParty(intent.profile, x, y)
  {
    SameAlike(x, Some(y));
  }

  /** The profiles whose calls are committed to as a whole. */
  predicate WholeCall(profile: Profile) {
    profile == ExactCall || profile == SolanaTransaction || profile == HyperliquidSpotIoc
  }

  /** The time of an execution: of its block, else of its observation, else zero. */
  function Time(e: Execution): int {
    match (e.executedAt, e.observedAt)
    case (Some(t), _) => t
    case (None, Some(t)) => t
    case (None, None) => 0
  }

  // ---------- Each reason code ----------

  /** A reason that only one check can add. */
  lemma OnlyReason(c: Case, check: Check)
    requires forall other :: ReasonOf(other) == ReasonOf(check) ==> other == check
    ensures ReasonOf(check) in BindingOf(c).reasonCodes <==> Fails(c, check)
  {
    BindingMeaning(c);
    assert Adds(c, check, ReasonOf(check)) <==> Fails(c, check);
  }

  lemma CalldataCode(c: Case)
    ensures CalldataMismatch in BindingOf(c).reasonCodes <==> Fails(c, CalldataCheck) || Fails(c, AccountCallCheck)
  {
    BindingMeaning(c);
    assert Adds(c, CalldataCheck, CalldataMismatch) <==> Fails(c, CalldataCheck);
    assert Adds(c, AccountCallCheck, CalldataMismatch) <==> Fails(c, AccountCallCheck);
  }

  lemma FinalityCode(c: Case)
    ensures InsufficientFinality in BindingOf(c).reasonCodes
       <==> Fails(c, ConfirmationsCheck) || Fails(c, ReorgDepthCheck) || Fails(c, FinalizedCheck)
  {
    BindingMeaning(c);
    assert Adds(c, ConfirmationsCheck, InsufficientFinality) <==> Fails(c, ConfirmationsCheck);
    assert Adds(c, ReorgDepthCheck, InsufficientFinality) <==> Fails(c, ReorgDepthCheck);
    assert Adds(c, FinalizedCheck, InsufficientFinality) <==> Fails(c, FinalizedCheck);
  }

  lemma UnavailableCode(c: Case)
    ensures ExecutionUnavailable in BindingOf(c).reasonCodes
       <==> Fails(c, DataCheck) || Fails(c, FillsCheck) || Fails(c, GasKnownCheck)
  {
    BindingMeaning(c);
    assert Adds(c, DataCheck, ExecutionUnavailable) <==> Fails(c, DataCheck);
    assert Adds(c, FillsCheck, ExecutionUnavailable) <==> Fails(c, FillsCheck);
    assert Adds(c, GasKnownCheck, ExecutionUnavailable) <==> Fails(c, GasKnownCheck);
  }

  /** The chain and the action. */
  lemma ChainCodes(c: Case)
    ensures var (i, e, codes) := (c.authorization.intent, c.execution, BindingOf(c).reasonCodes);
      && (ChainMismatch in codes <==> e.chainId != i.chainId)
      && (ChainRefMismatch in codes <==> e.chainRef != i.chainRef)
      && (ActionMismatch in codes <==> !IsAlike(e.action, i.action))
  {
    OnlyReason(c, ChainCheck);
    OnlyReason(c, ChainRefCheck);
    OnlyReason(c, ActionCheck);
    SameAlike(c.execution.action, Some(c.authorization.intent.action));
  }

  lemma PartyFails(c: Case)
    ensures var (i, e) := (c.authorization.intent, c.execution);
      && (Fails(c, SenderCheck) <==> !SameParty(i.profile, e.sender, i.sender))
      && (Fails(c, ExecutorCheck) <==> !SameParty(i.profile, e.sender, c.authorization.executor))
  {
    PartySame(c.authorization.intent, c.execution.sender, c.authorization.intent.sender);
    PartySame(c.authorization.intent, c.execution.sender, c.authorization.executor);
  }

  /** The parties. */
  lemma PartyCodes(c: Case)
    ensures var (i, e, codes) := (c.authorization.intent, c.execution, BindingOf(c).reasonCodes);
      && (SenderMismatch in codes <==> !SameParty(i.profile, e.sender, i.sender))
      && (ExecutorMismatch in codes <==> !SameParty(i.profile, e.sender, c.authorization.executor))
  {
    OnlyReason(c, SenderCheck);
    OnlyReason(c, ExecutorCheck);
    PartyFails(c);
  }

  /** The nonce: an absent one is compared as zero. */
  lemma NonceCodes(c: Case)
    ensures NonceMismatch in BindingOf(c).reasonCodes
       <==> !IsText(c.execution.nonce, match c.authorization.intent.nonce case Text(s) => s case _ => "0")
  {
    NonceCode(c);
  }

  /** The transfer, for every profile that does not commit to the whole call. */
  lemma TransferCodes(c: Case)
    ensures var (i, e, codes) := (c.authorization.intent, c.execution, BindingOf(c).reasonCodes);
      && (RecipientMismatch in codes <==> !WholeCall(i.profile) && !IsAlike(e.recipient, i.recipient))
      && (AssetMismatch in codes <==> !WholeCall(i.profile) && !IsAlike(e.asset, i.asset))
  {
    var (i, e) := (c.authorization.intent, c.execution);
    OnlyReason(c, RecipientCheck);
    OnlyReason(c, AssetCheck);
    PartySame(i, e.recipient, i.recipient);
    SameAlike(e.asset, Some(i.asset));
  }

  /** How much of it. */
  lemma AmountCodes(c: Case)
    ensures AmountMismatch in BindingOf(c).reasonCodes
       <==> !WholeCall(c.authorization.intent.profile) && !IsText(c.execution.amount, c.authorization.intent.amount)
  {
    OnlyReason(c, AmountCheck);
  }

  /** Whether it is the only one that fits. */
  lemma AmbiguityCodes(c: Case)
    ensures AmbiguousTransfer in BindingOf(c).reasonCodes
       <==> && !WholeCall(c.authorization.intent.profile)
            && c.execution.transfers.Some? && c.execution.transfers.value > 1 && !c.execution.transferMatchUnique
  {
    OnlyReason(c, TransferCheck);
  }

  /** The call data a user operation makes its account perform. */
  predicate AccountCallAgrees(i: Intent, e: Execution) {
    i.accountCallProfile.Some? ==>
      && e.accountCallProfile == i.accountCallProfile && BothAlike(e.accountCallTarget, i.accountCallTarget)
      && BothAlike(e.accountCallValue, i.accountCallValue) && BothAlike(e.accountCallDataHash, i.accountCallDataHash)
  }

  lemma AccountCallSame(c: Case)
    ensures Fails(c, AccountCallCheck) <==> !AccountCallAgrees(c.authorization.intent, c.execution)
  {
    var (i, e) := (c.authorization.intent, c.execution);
    SameAlike(e.accountCallTarget, i.accountCallTarget);
    SameAlike(e.accountCallValue, i.accountCallValue);
    SameAlike(e.accountCallDataHash, i.accountCallDataHash);
  }

  /** The call, wherever the intent commits to it. */
  lemma CallCodes(c: Case)
    ensures var (i, e, codes) := (c.authorization.intent, c.execution, BindingOf(c).reasonCodes);
      && (CallTargetMismatch in codes <==> i.callTarget.Some? && !IsAlike(e.target, i.callTarget.value))
      && (CalldataMismatch in codes
          <==> (i.calldataHash.Some? && !IsAlike(e.calldataHash, i.calldataHash.value)) || !AccountCallAgrees(i, e))
  {
    var (i, e) := (c.authorization.intent, c.execution);
    OnlyReason(c, CallTargetCheck);
    CalldataCode(c);
    AccountCallSame(c);
    SameAlike(e.target, i.callTarget);
    SameAlike(e.calldataHash, i.calldataHash);
  }

  /** The native value, wherever the intent commits to one. */
  lemma ValueCodes(c: Case)
    ensures TransactionValueMismatch in BindingOf(c).reasonCodes
       <==> && c.authorization.intent.transactionValue.Some?
            && !IsText(c.execution.nativeValue, c.authorization.intent.transactionValue.value)
  {
    OnlyReason(c, ValueCheck);
  }

  /** What a Solana or Hyperliquid intent commits to. */
  lemma MessageCodes(c: Case)
    ensures var (i, e, codes) := (c.authorization.intent, c.execution, BindingOf(c).reasonCodes);
      && (SolanaMessageMismatch in codes
          <==> && i.profile == SolanaTransaction
               && (i.solanaTransaction == None || e.solanaTransaction != i.solanaTransaction))
      && (HyperliquidOrderMismatch in codes
          <==> i.profile == HyperliquidSpotIoc && !(i.hasHyperliquidOrder && e.hyperliquidOrderMatches))
  {
    OnlyReason(c, SolanaCheck);
    OnlyReason(c, OrderCheck);
  }

  lemma OperationSame(c: Case)
    requires c.authorization.intent.profile == Erc4337
    ensures var (i, e) := (c.authorization.intent, c.execution);
      && (Fails(c, UserOperationCheck) <==> !BothAlike(e.userOperationHash, i.userOperationHash))
      && (Fails(c, EntryPointCheck) <==> !BothAlike(e.entryPoint, i.entryPoint))
      && (Fails(c, CodeHashCheck) <==> !BothAlike(e.entryPointCodeHash, i.entryPointCodeHash))
      && (Fails(c, EntryPointVersionCheck) <==> !BothAlike(e.entryPointVersion, i.entryPointVersion))
  {
    var (i, e) := (c.authorization.intent, c.execution);
    SameAlike(e.userOperationHash, i.userOperationHash);
    SameAlike(e.entryPoint, i.entryPoint);
    SameAlike(e.entryPointCodeHash, i.entryPointCodeHash);
    SameAlike(e.entryPointVersion, i.entryPointVersion);
  }

  /** What a user operation commits to. */
  lemma OperationCodes(c: Case)
    ensures var (i, e, codes) := (c.authorization.intent, c.execution, BindingOf(c).reasonCodes);
      && (UserOperationHashMismatch in codes
          <==> i.profile == Erc4337 && !BothAlike(e.userOperationHash, i.userOperationHash))
      && (EntryPointMismatch in codes <==> i.profile == Erc4337 && !BothAlike(e.entryPoint, i.entryPoint))
      && (EntryPointCodeHashMismatch in codes
          <==> i.profile == Erc4337 && !BothAlike(e.entryPointCodeHash, i.entryPointCodeHash))
      && (EntryPointVersionMismatch in codes
          <==> i.profile == Erc4337 && !BothAlike(e.entryPointVersion, i.entryPointVersion))
  {
    OnlyReason(c, UserOperationCheck);
    OnlyReason(c, EntryPointCheck);
    OnlyReason(c, CodeHashCheck);
    OnlyReason(c, EntryPointVersionCheck);
    if c.authorization.intent.profile == Erc4337 {
      OperationSame(c);
    }
  }

  /** The execution has the depth and the state the intent asks for. */
  predicate FinalEnough(wanted: Constraints, e: Execution) {
    var depth := if e.confirmations.Some? then e.confirmations.value else 0;
    && (wanted.minConfirmations.Some? ==> wanted.minConfirmations.value <= depth)
    && (wanted.maxToleratedReorgDepth.Some? ==> wanted.maxToleratedReorgDepth.value < depth)
    && (wanted.requiresFinalized ==> e.finality == Some(Finalized))
  }

  /** The times. */
  lemma TimeCodes(c: Case)
    ensures var (i, e, codes) := (c.authorization.intent, c.execution, BindingOf(c).reasonCodes);
      && (OutsideTimeWindow in codes <==> i.validUntil < Time(e))
      && (AuthorizationAfterExecution in codes <==> Time(e) < c.acceptedAt)
      && (OutsideAuthorizationWindow in codes
          <==> !(c.authorization.notBefore <= Time(e) <= c.authorization.expiresAt))
  {
    OnlyReason(c, TimeCheck);
    OnlyReason(c, AcceptedFirstCheck);
    OnlyReason(c, WindowCheck);
  }

  /** Depth and finality. */
  lemma FinalityCodes(c: Case)
    ensures InsufficientFinality in BindingOf(c).reasonCodes
       <==> !FinalEnough(c.authorization.intent.constraints, c.execution)
  {
    FinalityCode(c);
  }

  /** Gas. */
  lemma GasCodes(c: Case)
    ensures GasLimitExceeded in BindingOf(c).reasonCodes
       <==> && c.authorization.intent.constraints.maxGasUsed.Some? && c.execution.gasUsed.Some?
            && c.authorization.intent.constraints.maxGasUsed.value < c.execution.gasUsed.value
  {
    OnlyReason(c, GasCheck);
  }

  /** Missing data. */
  lemma DataCodes(c: Case)
    ensures ExecutionUnavailable in BindingOf(c).reasonCodes
       <==> || c.execution.dataAvailable == Some(false)
            || (c.authorization.intent.profile == HyperliquidSpotIoc && !c.execution.hyperliquidFillsComplete)
            || (c.authorization.intent.constraints.maxGasUsed.Some? && c.execution.gasUsed.None?)
  {
    UnavailableCode(c);
  }

  lemma NoReason(c: Case, reason: Reason)
    requires forall check :: ReasonOf(check) != reason
    ensures reason !in BindingOf(c).reasonCodes
  {
    BindingMeaning(c);
  }

  /** Three reasons are given by the compliance assessment only. */
  lemma NeverBindingCodes(c: Case)
    ensures var codes := BindingOf(c).reasonCodes;
      ExecutionReorged !in codes && ExecutionPending !in codes && ExecutionNotFound !in codes
  {
    NoReason(c, ExecutionReorged);
    NoReason(c, ExecutionPending);
    NoReason(c, ExecutionNotFound);
  }

  // ---------- A bound execution ----------

  /** On the authorized chain, by the authorized parties, after the acceptance and in both windows. */
  predicate PartiesAgree(c: Case) {
    var (i, e) := (c.authorization.intent, c.execution);
    && e.chainId == i.chainId && e.chainRef == i.chainRef && IsAlike(e.action, i.action)
    && SameParty(i.profile, e.sender, i.sender) && SameParty(i.profile, e.sender, c.authorization.executor)
    && IsText(e.nonce, match i.nonce case Text(s) => s case _ => "0")
    && c.acceptedAt <= Time(e) <= i.validUntil && c.authorization.notBefore <= Time(e) <= c.authorization.expiresAt
  }

  /** What an intent of any profile may commit to, and the evidence it may ask for. */
  predicate CommitmentsHold(i: Intent, e: Execution) {
    && (i.callTarget.Some? ==> IsAlike(e.target, i.callTarget.value))
    && (i.calldataHash.Some? ==> IsAlike(e.calldataHash, i.calldataHash.value))
    && (i.transactionValue.Some? ==> IsText(e.nativeValue, i.transactionValue.value))
    && AccountCallAgrees(i, e)
    && e.dataAvailable != Some(false) && FinalEnough(i.constraints, e)
    && (i.constraints.maxGasUsed.Some? ==> e.gasUsed.Some? && e.gasUsed.value <= i.constraints.maxGasUsed.value)
  }

  /** A plain transfer: recipient, asset, amount, and no second candidate. */
  predicate TransferAgrees(i: Intent, e: Execution) {
    && IsAlike(e.recipient, i.recipient) && IsAlike(e.asset, i.asset) && IsText(e.amount, i.amount)
    && (e.transfers.Some? && e.transfers.value > 1 ==> e.transferMatchUnique)
  }

  predicate UserOperationAgrees(i: Intent, e: Execution) {
    && BothAlike(e.userOperationHash, i.userOperationHash) && BothAlike(e.entryPoint, i.entryPoint)
    && BothAlike(e.entryPointCodeHash, i.entryPointCodeHash) && BothAlike(e.entryPointVersion, i.entryPointVersion)
  }

  /** What only the profile asks. */
  predicate Profiled(i: Intent, e: Execution) {
    match i.profile
    case NoProfile => TransferAgrees(i, e)
    case OtherProfile => TransferAgrees(i, e)
    case Erc4337 => TransferAgrees(i, e) && UserOperationAgrees(i, e)
    case ExactCall => true
    case SolanaTransaction => i.solanaTransaction.Some? && e.solanaTransaction == i.solanaTransaction
    case HyperliquidSpotIoc => i.hasHyperliquidOrder && e.hyperliquidOrderMatches && e.hyperliquidFillsComplete
  }

  lemma PartiesNamed(c: Case)
    ensures var codes := BindingOf(c).reasonCodes;
      PartiesAgree(c)
      <==> && ChainMismatch !in codes && ChainRefMismatch !in codes && ActionMismatch !in codes
           && SenderMismatch !in codes && ExecutorMismatch !in codes && NonceMismatch !in codes
           && OutsideTimeWindow !in codes && AuthorizationAfterExecution !in codes
           && OutsideAuthorizationWindow !in codes
  {
    ChainCodes(c);
    PartyCodes(c);
    NonceCodes(c);
    TimeCodes(c);
  }

  lemma CommitmentsNamed(c: Case)
    ensures var (i, e, codes) := (c.authorization.intent, c.execution, BindingOf(c).reasonCodes);
      CommitmentsHold(i, e) && (i.profile == HyperliquidSpotIoc ==> e.hyperliquidFillsComplete)
      <==> && CallTargetMismatch !in codes && CalldataMismatch !in codes && TransactionValueMismatch !in codes
           && ExecutionUnavailable !in codes && InsufficientFinality !in codes && GasLimitExceeded !in codes
  {
    CallCodes(c);
    ValueCodes(c);
    FinalityCodes(c);
    GasCodes(c);
    DataCodes(c);
  }

  lemma ProfileNamed(c: Case)
    ensures var (i, e, codes) := (c.authorization.intent, c.execution, BindingOf(c).reasonCodes);
      Profiled(i, e)
      <==> && RecipientMismatch !in codes && AssetMismatch !in codes && AmountMismatch !in codes
           && AmbiguousTransfer !in codes && SolanaMessageMismatch !in codes && HyperliquidOrderMismatch !in codes
           && UserOperationHashMismatch !in codes && EntryPointMismatch !in codes
           && EntryPointCodeHashMismatch !in codes && EntryPointVersionMismatch !in codes
           && (i.profile == HyperliquidSpotIoc ==> e.hyperliquidFillsComplete)
  {
    TransferCodes(c);
    AmountCodes(c);
    AmbiguityCodes(c);
    MessageCodes(c);
    OperationCodes(c);
  }

  lemma NoCode(codes: seq<Reason>)
    requires ExecutionUnavailable !in codes && ChainMismatch !in codes && ChainRefMismatch !in codes
    requires ActionMismatch !in codes && SenderMismatch !in codes && RecipientMismatch !in codes
    requires AssetMismatch !in codes && AmountMismatch !in codes && NonceMismatch !in codes
    requires CallTargetMismatch !in codes && CalldataMismatch !in codes && TransactionValueMismatch !in codes
    requires SolanaMessageMismatch !in codes && HyperliquidOrderMismatch !in codes
    requires UserOperationHashMismatch !in codes && EntryPointMismatch !in codes
    requires EntryPointCodeHashMismatch !in codes && EntryPointVersionMismatch !in codes
    requires OutsideTimeWindow !in codes && InsufficientFinality !in codes && GasLimitExceeded !in codes
    requires AmbiguousTransfer !in codes && ExecutorMismatch !in codes && AuthorizationAfterExecution !in codes
    requires OutsideAuthorizationWindow !in codes && ExecutionReorged !in codes && ExecutionPending !in codes
    requires ExecutionNotFound !in codes
    ensures codes == []
  {
    if codes != [] {
      assert codes[0] in codes;
      match codes[0] {
        case ExecutionUnavailable =>
        case ChainMismatch =>
        case ChainRefMismatch =>
        case ActionMismatch =>
        case SenderMismatch =>
        case RecipientMismatch =>
        case AssetMismatch =>
        case AmountMismatch =>
        case NonceMismatch =>
        case CallTargetMismatch =>
        case CalldataMismatch =>
        case TransactionValueMismatch =>
        case SolanaMessageMismatch =>
        case HyperliquidOrderMismatch =>
        case UserOperationHashMismatch =>
        case EntryPointMismatch =>
        case EntryPointCodeHashMismatch =>
        case EntryPointVersionMismatch =>
        case OutsideTimeWindow =>
        case InsufficientFinality =>
        case GasLimitExceeded =>
        case AmbiguousTransfer =>
        case ExecutorMismatch =>
        case AuthorizationAfterExecution =>
        case OutsideAuthorizationWindow =>
        case ExecutionReorged =>
        case ExecutionPending =>
        case ExecutionNotFound =>
      }
    }
  }

  /** An execution is bound exactly when it agrees with its authorization field by field, as its profile asks. */
  lemma BoundExactly(c: Case)
    ensures BindingOf(c).bound
       <==> && PartiesAgree(c) && CommitmentsHold(c.authorization.intent, c.execution)
            && Profiled(c.authorization.intent, c.execution)
  {
    PartiesNamed(c);
    CommitmentsNamed(c);
    ProfileNamed(c);
    NeverBindingCodes(c);
    BindingIsBound(c);
    if PartiesAgree(c) && CommitmentsHold(c.authorization.intent, c.execution)
       && Profiled(c.authorization.intent, c.execution) {
      NoCode(BindingOf(c).reasonCodes);
    }
  }

  // ---------- The order of the codes ----------

  /** The lines of the binding, from the first to the last. */
  lemma Lines()
    ensures ORDER
         == [DataCheck, ChainCheck, ChainRefCheck, ActionCheck, SenderCheck, RecipientCheck, AssetCheck, AmountCheck,
             NonceCheck, CallTargetCheck, CalldataCheck, ValueCheck, SolanaCheck, OrderCheck, FillsCheck,
             UserOperationCheck, EntryPointCheck, CodeHashCheck, AccountCallCheck, EntryPointVersionCheck, TimeCheck,
             ConfirmationsCheck, ReorgDepthCheck, FinalizedCheck, GasKnownCheck, GasCheck, TransferCheck,
             ExecutorCheck, AcceptedFirstCheck, WindowCheck]
  {
  }

  /** Some line adds the first code before any line adds the second. */
  ghost predicate Earlier(c: Case, checks: seq<Check>, first: Reason, second: Reason) {
    exists k :: 0 <= k < |checks| && Adds(c, checks[k], first) && forall j :: 0 <= j <= k ==> !Adds(c, checks[j], second)
  }

  lemma {:induction false} CollectAdds(c: Case, checks: seq<Check>, reason: Reason)
    ensures reason in Collect(check => Entry(c, check), checks)
       <==> exists k :: 0 <= k < |checks| && Adds(c, checks[k], reason)
  {
    var entry := check => Entry(c, check);
    CollectMembers(entry, checks, reason);
    if check :| check in checks && reason in entry(check) {
      var k :| 0 <= k < |checks| && checks[k] == check;
      assert Adds(c, checks[k], reason);
    }
    if k :| 0 <= k < |checks| && Adds(c, checks[k], reason) {
      assert checks[k] in checks && reason in entry(checks[k]);
    }
  }

  lemma EarlierLonger(c: Case, front: seq<Check>, last: Check, first: Reason, second: Reason)
    requires Earlier(c, front, first, second)
    ensures Earlier(c, front + [last], first, second)
  {
    var k :| 0 <= k < |front| && Adds(c, front[k], first) && forall j :: 0 <= j <= k ==> !Adds(c, front[j], second);
    assert (front + [last])[k] == front[k];
    assert forall j :: 0 <= j <= k ==> (front + [last])[j] == front[j];
  }

  lemma {:induction false} CodesInOrder(c: Case, checks: seq<Check>, p: nat, q: nat)
    requires p < q < |Unique(Collect(check => Entry(c, check), checks))|
    ensures var codes := Unique(Collect(check => Entry(c, check), checks)); Earlier(c, checks, codes[p], codes[q])
  {
    var entry := check => Entry(c, check);
    var all := Collect(entry, checks);
    var (front, last) := (checks[..|checks| - 1], checks[|checks| - 1]);
    var before := Collect(entry, front);
    var codes := Unique(all);
    assert checks == front + [last];
    assert all == before + entry(last);
    if !Fails(c, last) {
      assert all == before;
    } else {
      assert all[..|all| - 1] == before && all[|all| - 1] == ReasonOf(last);
    }
    if q < |Unique(before)| {
      CodesInOrder(c, front, p, q);
      EarlierLonger(c, front, last, codes[p], codes[q]);
    } else {
      UniqueMember(before, codes[p]);
      CollectAdds(c, front, codes[p]);
      CollectAdds(c, front, codes[q]);
      var k :| 0 <= k < |front| && Adds(c, front[k], codes[p]);
      assert checks[k] == front[k];
      assert forall j :: 0 <= j <= k ==> checks[j] == front[j];
    }
  }

  /** The codes stand in the order in which the lines first add them. */
  lemma ReasonsInOrder(c: Case, p: nat, q: nat)
    requires p < q < |BindingOf(c).reasonCodes|
    ensures Earlier(c, ORDER, BindingOf(c).reasonCodes[p], BindingOf(c).reasonCodes[q])
  {
    CodesInOrder(c, ORDER, p, q);
  }

  // ---------- Outcomes ----------

  /** A reorganisation outranks everything, a lack of depth all but that. */
  predicate Gone(e: Execution) {
    e.status == Reorged || e.finality == Some(FinalityReorged)
  }

  predicate Waiting(e: Execution) {
    !Gone(e) && (e.status == Pending || e.finality == Some(InsufficientFinalityState))
  }

  predicate Stands(e: Execution, status: Status) {
    e.status == status && !Gone(e) && !Waiting(e)
  }

  /** Each v2 outcome, whatever the binding. */
  lemma OutcomesExactly(i: Intent, e: Execution, binding: Binding)
    ensures var outcome := OutcomeFor(i, e, binding);
      && (outcome == ReorgedOutcome <==> Gone(e))
      && (outcome == PendingOutcome <==> Waiting(e))
      && (outcome == FailedOutcome <==> Stands(e, Reverted))
      && (outcome == Completed <==> Stands(e, Confirmed) && binding.bound && Time(e) <= i.validUntil)
      && (outcome == Expired <==> Stands(e, Confirmed) && binding.bound && i.validUntil < Time(e))
  {
  }

  /** Each v3 outcome, which does not look at the authorization. */
  lemma ExecutionOutcomesExactly(e: Execution)
    ensures var outcome := ExecutionOutcomeFor(e);
      && (outcome == ReorgedOutcome <==> Gone(e))
      && (outcome == PendingOutcome <==> Waiting(e))
      && (outcome == FailedOutcome <==> Stands(e, Reverted))
      && (outcome == Completed <==> Stands(e, Confirmed))
      && outcome != Expired
  {
  }

  // ---------- The reasons of an assessment ----------

  /** The binding could not be judged for want of evidence. */
  predicate Missing(c: Case, reason: Reason) {
    reason in {ExecutionUnavailable, InsufficientFinality} && reason in BindingOf(c).reasonCodes
  }

  /** By chain, executor and nonce the execution is another one; an absent nonce is compared as it prints. */
  predicate Stranger(c: Case, reason: Reason) {
    var (a, e) := (c.authorization, c.execution);
    || (reason == ChainMismatch
        && (e.chainId != a.intent.chainId
            || (e.chainRef != a.intent.chainRef && (a.solanaAuthorizer || a.intent.profile == HyperliquidSpotIoc))))
    || (reason == ExecutorMismatch
        && !(if a.solanaAuthorizer then IsText(e.sender, a.executor) else IsAlike(e.sender, a.executor)))
    || (reason == NonceMismatch
        && !IsText(e.nonce, match a.intent.nonce case Text(s) => s case Null => "null" case Undefined => "undefined"))
  }

  lemma {:induction false} MissingKept(reasons: seq<Reason>, reason: Reason)
    ensures reason in Unavailable(reasons)
       <==> reason in {ExecutionUnavailable, InsufficientFinality} && reason in reasons
  {
    if reasons != [] {
      MissingKept(reasons[1..], reason);
      assert reasons == [reasons[0]] + reasons[1..];
    }
  }

  lemma StrangersNamed(c: Case, reason: Reason)
    ensures reason in Uncorrelated(c) <==> Stranger(c, reason)
  {
    LettersAlike(TextOf(c.execution.sender), c.authorization.executor);
    assert reason in Uncorrelated(c)
      <==> || (reason == ChainMismatch && (ChainDiffers(c) || ChainRefDiffers(c)))
           || (reason == ExecutorMismatch && ExecutorDiffers(c)) || (reason == NonceMismatch && NonceDiffers(c));
  }

  /** What stands in the way of a judgement before the binding is looked at. */
  function Obstacle(e: Execution): Option<Reason> {
    if e.dataAvailable == Some(false) then Some(ExecutionUnavailable)
    else if Gone(e) then Some(ExecutionReorged)
    else if Waiting(e) then Some(ExecutionPending)
    else
      match e.status
      case Confirmed => None
      case Reverted => None
      case NotFound => Some(ExecutionNotFound)
      case _ => Some(ExecutionUnavailable)
  }

  lemma AssessedUnder(c: Case, binding: Binding)
    ensures ComplianceOf(c, binding)
         == match Obstacle(c.execution)
            case Some(reason) => Assessment(NotAssessable, [reason])
            case None =>
              if Unavailable(binding.reasonCodes) != [] then Assessment(NotAssessable, Unavailable(binding.reasonCodes))
              else if Uncorrelated(c) != [] then Assessment(NotAssessable, Uncorrelated(c))
              else if binding.bound then Assessment(Compliant, [])
              else Assessment(NonCompliant, binding.reasonCodes)
  {
  }

  /** An assessment, reason by reason: the one obstacle, else what is missing, else how the execution is a stranger,
      else what the binding says. */
  lemma AssessmentExactly(c: Case, reason: Reason)
    ensures var (a, obstacle) := (ComplianceOf(c, BindingOf(c)), Obstacle(c.execution));
      reason in a.reasonCodes
      <==> if obstacle.Some? then reason == obstacle.value
           else if exists r :: Missing(c, r) then Missing(c, reason)
           else if exists r :: Stranger(c, r) then Stranger(c, reason)
           else reason in BindingOf(c).reasonCodes
  {
    AssessedUnder(c, BindingOf(c));
    BindingIsBound(c);
    var (missing, strange) := (Unavailable(BindingOf(c).reasonCodes), Uncorrelated(c));
    forall r ensures (r in missing <==> Missing(c, r)) && (r in strange <==> Stranger(c, r)) {
      MissingKept(BindingOf(c).reasonCodes, r);
      StrangersNamed(c, r);
    }
    assert missing != [] ==> missing[0] in missing;
    assert strange != [] ==> strange[0] in strange;
  }
}
