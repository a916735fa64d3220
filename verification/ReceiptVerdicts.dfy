// What a receipt may claim: whether an execution is bound to its authorization, the outcome a v2
// receipt carries, and the execution outcome and compliance a v3 receipt carries instead.
module ReceiptVerdicts {
  import opened Ascii
  import opened Distinct
  import opened Wrappers

  datatype Status =
    | Pending | Confirmed | Reverted | Reorged | NotFound | RpcError | RpcTimeout | UnsupportedChain | OtherStatus

  datatype Finality = Finalized | FinalityReorged | InsufficientFinalityState | OtherFinality

  datatype Profile = NoProfile | ExactCall | Erc4337 | SolanaTransaction | HyperliquidSpotIoc | OtherProfile

  /** A JSON member that is absent, null or text; the three differ once they are turned into a string. */
  datatype Member = Undefined | Null | Text(text: string)

  datatype Constraints = Constraints(
    minConfirmations: Option<int>, maxToleratedReorgDepth: Option<int>, requiresFinalized: bool, maxGasUsed: Option<int>)

  datatype Intent = Intent(
    profile: Profile, chainId: int, chainRef: Option<string>, action: string, sender: string, recipient: string,
    asset: string, amount: string, nonce: Member, callTarget: Option<string>, calldataHash: Option<string>,
    transactionValue: Option<string>, solanaTransaction: Option<string>, hasHyperliquidOrder: bool,
    userOperationHash: Option<string>, entryPoint: Option<string>, entryPointCodeHash: Option<string>,
    entryPointVersion: Option<string>, accountCallProfile: Option<string>, accountCallTarget: Option<string>,
    accountCallValue: Option<string>, accountCallDataHash: Option<string>, validUntil: int, constraints: Constraints)

  /** `hyperliquidOrderMatches` and `hyperliquidFillsComplete` are the answers of the two Hyperliquid checks;
      `solanaTransaction` is the canonical text of the message. */
  datatype Execution = Execution(
    dataAvailable: Option<bool>, status: Status, finality: Option<Finality>, chainId: int, chainRef: Option<string>,
    action: Option<string>, sender: Option<string>, recipient: Option<string>, asset: Option<string>,
    amount: Option<string>, nonce: Option<string>, target: Option<string>, calldataHash: Option<string>,
    nativeValue: Option<string>, solanaTransaction: Option<string>, hyperliquidOrderMatches: bool,
    hyperliquidFillsComplete: bool, userOperationHash: Option<string>, entryPoint: Option<string>,
    entryPointCodeHash: Option<string>, entryPointVersion: Option<string>, accountCallProfile: Option<string>,
    accountCallTarget: Option<string>, accountCallValue: Option<string>, accountCallDataHash: Option<string>,
    executedAt: Option<int>, observedAt: Option<int>, confirmations: Option<int>, gasUsed: Option<int>,
    transfers: Option<nat>, transferMatchUnique: bool)

  datatype Authorization = Authorization(
    solanaAuthorizer: bool, intent: Intent, executor: string, notBefore: int, expiresAt: int)

  /** Everything the binding compares. */
  datatype Case = Case(authorization: Authorization, execution: Execution, acceptedAt: int)

  datatype Reason =
    | ExecutionUnavailable | ChainMismatch | ChainRefMismatch | ActionMismatch | SenderMismatch | RecipientMismatch
    | AssetMismatch | AmountMismatch | NonceMismatch | CallTargetMismatch | CalldataMismatch
    | TransactionValueMismatch | SolanaMessageMismatch | HyperliquidOrderMismatch | UserOperationHashMismatch
    | EntryPointMismatch | EntryPointCodeHashMismatch | EntryPointVersionMismatch | OutsideTimeWindow
    | InsufficientFinality | GasLimitExceeded | AmbiguousTransfer | ExecutorMismatch | AuthorizationAfterExecution
    | OutsideAuthorizationWindow | ExecutionReorged | ExecutionPending | ExecutionNotFound

  // ---------- Comparisons ----------

  /** Equal once both are in lower case. */
  predicate SameLetters(x: string, y: string) {
    if x == "" || y == "" then x == y
    else LowerChar(x[0]) == LowerChar(y[0]) && SameLetters(x[1..], y[1..])
  }

  lemma {:induction false} EqualIsSame(x: string)
    ensures SameLetters(x, x)
  {
    if x != "" {
      EqualIsSame(x[1..]);
    }
  }

  /** `String(x ?? '')`. */
  function TextOf(x: Option<string>): string {
    match x case None => "" case Some(s) => s
  }

  predicate Same(x: Option<string>, y: Option<string>) {
    SameLetters(TextOf(x), TextOf(y))
  }

  /** `String(x)`. */
  function Printed(x: Member): string {
    match x case Undefined => "undefined" case Null => "null" case Text(s) => s
  }

  function NonceOrZero(x: Member): string {
    if x.Text? then x.text else "0"
  }

  predicate IsSolana(intent: Intent) { intent.profile.SolanaTransaction? }

  predicate IsHyperliquid(intent: Intent) { intent.profile.HyperliquidSpotIoc? }

  predicate IsExactCall(intent: Intent) {
    intent.profile.ExactCall? || IsSolana(intent) || IsHyperliquid(intent)
  }

  /** Solana identities are case-sensitive. */
  predicate SameIdentity(intent: Intent, x: Option<string>, y: Option<string>) {
    if IsSolana(intent) then TextOf(x) == TextOf(y) else Same(x, y)
  }

  function ExecutedAt(execution: Execution): int {
    if execution.executedAt.Some? then execution.executedAt.value
    else if execution.observedAt.Some? then execution.observedAt.value
    else 0
  }

  function Confirmations(execution: Execution): int {
    match execution.confirmations case None => 0 case Some(n) => n
  }

  // ---------- The checks of the binding ----------

  /** One member for each line that can add a reason, in their order. */
  datatype Check =
    | DataCheck | ChainCheck | ChainRefCheck | ActionCheck | SenderCheck | RecipientCheck | AssetCheck | AmountCheck
    | NonceCheck | CallTargetCheck | CalldataCheck | ValueCheck | SolanaCheck | OrderCheck | FillsCheck
    | UserOperationCheck | EntryPointCheck | CodeHashCheck | AccountCallCheck | EntryPointVersionCheck | TimeCheck
    | ConfirmationsCheck | ReorgDepthCheck | FinalizedCheck | GasKnownCheck | GasCheck | TransferCheck | ExecutorCheck
    | AcceptedFirstCheck | WindowCheck

  function ReasonOf(check: Check): Reason {
    match check
    case DataCheck => ExecutionUnavailable
    case ChainCheck => ChainMismatch
    case ChainRefCheck => ChainRefMismatch
    case ActionCheck => ActionMismatch
    case SenderCheck => SenderMismatch
    case RecipientCheck => RecipientMismatch
    case AssetCheck => AssetMismatch
    case AmountCheck => AmountMismatch
    case NonceCheck => NonceMismatch
    case CallTargetCheck => CallTargetMismatch
    case CalldataCheck => CalldataMismatch
    case ValueCheck => TransactionValueMismatch
    case SolanaCheck => SolanaMessageMismatch
    case OrderCheck => HyperliquidOrderMismatch
    case FillsCheck => ExecutionUnavailable
    case UserOperationCheck => UserOperationHashMismatch
    case EntryPointCheck => EntryPointMismatch
    case CodeHashCheck => EntryPointCodeHashMismatch
    case AccountCallCheck => CalldataMismatch
    case EntryPointVersionCheck => EntryPointVersionMismatch
    case TimeCheck => OutsideTimeWindow
    case ConfirmationsCheck => InsufficientFinality
    case ReorgDepthCheck => InsufficientFinality
    case FinalizedCheck => InsufficientFinality
    case GasKnownCheck => ExecutionUnavailable
    case GasCheck => GasLimitExceeded
    case TransferCheck => AmbiguousTransfer
    case ExecutorCheck => ExecutorMismatch
    case AcceptedFirstCheck => AuthorizationAfterExecution
    case WindowCheck => OutsideAuthorizationWindow
  }

  /** When the check adds its reason. */
  predicate Fails(c: Case, check: Check) {
    var (i, e) := (c.authorization.intent, c.execution);
    match check
    case DataCheck => e.dataAvailable == Some(false)
    case ChainCheck => e.chainId != i.chainId
    case ChainRefCheck => e.chainRef != i.chainRef
    case ActionCheck => !Same(e.action, Some(i.action))
    case SenderCheck => !SameIdentity(i, e.sender, Some(i.sender))
    case RecipientCheck => !IsExactCall(i) && !SameIdentity(i, e.recipient, Some(i.recipient))
    case AssetCheck => !IsExactCall(i) && !Same(e.asset, Some(i.asset))
    case AmountCheck => !IsExactCall(i) && TextOf(e.amount) != i.amount
    case NonceCheck => TextOf(e.nonce) != NonceOrZero(i.nonce)
    case CallTargetCheck => i.callTarget.Some? && !Same(e.target, i.callTarget)
    case CalldataCheck => i.calldataHash.Some? && !Same(e.calldataHash, i.calldataHash)
    case ValueCheck => i.transactionValue.Some? && TextOf(e.nativeValue) != i.transactionValue.value
    case SolanaCheck =>
      IsSolana(i) && (i.solanaTransaction.None? || e.solanaTransaction.None? || i.solanaTransaction != e.solanaTransaction)
    case OrderCheck => IsHyperliquid(i) && (!i.hasHyperliquidOrder || !e.hyperliquidOrderMatches)
    case FillsCheck => IsHyperliquid(i) && !e.hyperliquidFillsComplete
    case UserOperationCheck => i.profile.Erc4337? && !Same(e.userOperationHash, i.userOperationHash)
    case EntryPointCheck => i.profile.Erc4337? && !Same(e.entryPoint, i.entryPoint)
    case CodeHashCheck => i.profile.Erc4337? && !Same(e.entryPointCodeHash, i.entryPointCodeHash)
    case AccountCallCheck =>
      i.accountCallProfile.Some?
      && (e.accountCallProfile != i.accountCallProfile || !Same(e.accountCallTarget, i.accountCallTarget)
          || !Same(e.accountCallValue, i.accountCallValue) || !Same(e.accountCallDataHash, i.accountCallDataHash))
    case EntryPointVersionCheck => i.profile.Erc4337? && !Same(e.entryPointVersion, i.entryPointVersion)
    case TimeCheck => ExecutedAt(e) > i.validUntil
    case ConfirmationsCheck =>
      i.constraints.minConfirmations.Some? && Confirmations(e) < i.constraints.minConfirmations.value
    case ReorgDepthCheck =>
      i.constraints.maxToleratedReorgDepth.Some? && Confirmations(e) <= i.constraints.maxToleratedReorgDepth.value
    case FinalizedCheck => i.constraints.requiresFinalized && e.finality != Some(Finalized)
    case GasKnownCheck => i.constraints.maxGasUsed.Some? && e.gasUsed.None?
    case GasCheck =>
      i.constraints.maxGasUsed.Some? && e.gasUsed.Some? && e.gasUsed.value > i.constraints.maxGasUsed.value
    case TransferCheck =>
      !IsExactCall(i) && e.transfers.Some? && e.transfers.value > 1 && !e.transferMatchUnique
    case ExecutorCheck => !SameIdentity(i, e.sender, Some(c.authorization.executor))
    case AcceptedFirstCheck => c.acceptedAt > ExecutedAt(e)
    case WindowCheck => ExecutedAt(e) < c.authorization.notBefore || ExecutedAt(e) > c.authorization.expiresAt
  }

  /** What one check adds to the list. */
  function Entry(c: Case, check: Check): seq<Reason> {
    if Fails(c, check) then [ReasonOf(check)] else []
  }

  // The checks in the order of the code, five at a time.
  const PARTY: seq<Check> := [DataCheck, ChainCheck, ChainRefCheck, ActionCheck, SenderCheck]
  const TRANSFER: seq<Check> := [RecipientCheck, AssetCheck, AmountCheck, NonceCheck, CallTargetCheck]
  const COMMITMENT: seq<Check> := [CalldataCheck, ValueCheck, SolanaCheck, OrderCheck, FillsCheck]
  const OPERATION: seq<Check> := [UserOperationCheck, EntryPointCheck, CodeHashCheck, AccountCallCheck,
                                  EntryPointVersionCheck]
  const FINALITY: seq<Check> := [TimeCheck, ConfirmationsCheck, ReorgDepthCheck, FinalizedCheck, GasKnownCheck]
  const WINDOW: seq<Check> := [GasCheck, TransferCheck, ExecutorCheck, AcceptedFirstCheck, WindowCheck]

  const ORDER: seq<Check> := PARTY + TRANSFER + COMMITMENT + OPERATION + FINALITY + WINDOW

  function Collect<T>(entry: Check -> seq<T>, checks: seq<Check>): seq<T> {
    if checks == [] then [] else Collect(entry, checks[..|checks| - 1]) + entry(checks[|checks| - 1])
  }

  function AllReasons(c: Case): seq<Reason> {
    Collect(check => Entry(c, check), ORDER)
  }

  datatype Binding = Binding(bound: bool, reasonCodes: seq<Reason>)

  function BindingOf(c: Case): Binding {
    var reasonCodes := Unique(AllReasons(c));
    Binding(reasonCodes == [], reasonCodes)
  }

  predicate Adds(c: Case, check: Check, reason: Reason) {
    Fails(c, check) && ReasonOf(check) == reason
  }

  lemma {:induction false} CollectMembers<T>(entry: Check -> seq<T>, checks: seq<Check>, x: T)
    ensures x in Collect(entry, checks) <==> exists check :: check in checks && x in entry(check)
  {
    if checks != [] {
      var (front, last) := (checks[..|checks| - 1], checks[|checks| - 1]);
      CollectMembers(entry, front, x);
      assert checks == front + [last];
    }
  }

  lemma EveryCheckIsOrdered(check: Check)
    ensures check in ORDER
  {
    assert check in PARTY || check in TRANSFER || check in COMMITMENT
           || check in OPERATION || check in FINALITY || check in WINDOW;
  }

  lemma AllMembers(c: Case, reason: Reason)
    ensures reason in AllReasons(c) <==> exists check :: Adds(c, check, reason)
  {
    var entry := check => Entry(c, check);
    CollectMembers(entry, ORDER, reason);
    if check :| Adds(c, check, reason) {
      EveryCheckIsOrdered(check);
      assert reason in entry(check);
    }
    if check :| check in ORDER && reason in entry(check) {
      assert Adds(c, check, reason);
    }
  }

  lemma UniqueMeaning(c: Case, all: seq<Reason>)
    requires forall reason :: reason in all <==> exists check :: Adds(c, check, reason)
    ensures forall reason :: reason in Unique(all) <==> exists check :: Adds(c, check, reason)
    ensures Unique(all) == [] <==> forall check :: !Fails(c, check)
    ensures forall i, j :: 0 <= i < j < |Unique(all)| ==> Unique(all)[i] != Unique(all)[j]
  {
    UniqueMembers(all);
    if Unique(all) != [] {
      var reason := Unique(all)[0];
      assert reason in all;
      var check :| Adds(c, check, reason);
      assert Fails(c, check);
    }
    forall check | Fails(c, check) ensures Unique(all) != [] {
      assert Adds(c, check, ReasonOf(check));
      assert ReasonOf(check) in all && ReasonOf(check) in Unique(all);
    }
  }

  /** The reason codes name exactly the checks that fail, each once, and an execution is bound when none does. */
  lemma BindingMeaning(c: Case)
    ensures forall reason :: reason in BindingOf(c).reasonCodes <==> exists check :: Adds(c, check, reason)
    ensures BindingOf(c).bound <==> forall check :: !Fails(c, check)
    ensures var codes := BindingOf(c).reasonCodes;
            forall i, j :: 0 <= i < j < |codes| ==> codes[i] != codes[j]
  {
    forall reason ensures reason in AllReasons(c) <==> exists check :: Adds(c, check, reason) {
      AllMembers(c, reason);
    }
    UniqueMeaning(c, AllReasons(c));
  }

  // ---------- The code of the binding, in the order it pushes ----------

  /** One line of the binding: push the reason when the check fails. */
  method Push(c: Case, check: Check, reasons: seq<Reason>) returns (longer: seq<Reason>)
    ensures longer == reasons + Entry(c, check)
  {
    longer := reasons;
    if Fails(c, check) {
      longer := longer + [ReasonOf(check)];
    }
  }

  /** The entries of five checks, after those already pushed. */
  function Five<T>(entry: Check -> seq<T>, pushed: seq<T>, a: Check, b: Check, c: Check, d: Check, e: Check): seq<T> {
    pushed + entry(a) + entry(b) + entry(c) + entry(d) + entry(e)
  }

  lemma CollectSnoc<T>(entry: Check -> seq<T>, checks: seq<Check>, check: Check)
    ensures Collect(entry, checks + [check]) == Collect(entry, checks) + entry(check)
  {
    assert (checks + [check])[..|checks + [check]| - 1] == checks;
  }

  lemma CollectFive<T>(entry: Check -> seq<T>, before: seq<Check>, a: Check, b: Check, c: Check, d: Check, e: Check)
    ensures Collect(entry, before + [a, b, c, d, e]) == Five(entry, Collect(entry, before), a, b, c, d, e)
  {
    assert before + [a, b, c, d, e] == before + [a] + [b] + [c] + [d] + [e];
    CollectSnoc(entry, before, a);
    CollectSnoc(entry, before + [a], b);
    CollectSnoc(entry, before + [a] + [b], c);
    CollectSnoc(entry, before + [a] + [b] + [c], d);
    CollectSnoc(entry, before + [a] + [b] + [c] + [d], e);
  }

  function InOrder<T>(entry: Check -> seq<T>): seq<T> {
    var party := Five(entry, [], DataCheck, ChainCheck, ChainRefCheck, ActionCheck, SenderCheck);
    var transfer := Five(entry, party, RecipientCheck, AssetCheck, AmountCheck, NonceCheck, CallTargetCheck);
    var commitment := Five(entry, transfer, CalldataCheck, ValueCheck, SolanaCheck, OrderCheck, FillsCheck);
    var operation := Five(entry, commitment, UserOperationCheck, EntryPointCheck, CodeHashCheck, AccountCallCheck,
                          EntryPointVersionCheck);
    var finality := Five(entry, operation, TimeCheck, ConfirmationsCheck, ReorgDepthCheck, FinalizedCheck,
                         GasKnownCheck);
    Five(entry, finality, GasCheck, TransferCheck, ExecutorCheck, AcceptedFirstCheck, WindowCheck)
  }

  lemma InOrderIsCollected<T>(entry: Check -> seq<T>)
    ensures InOrder(entry) == Collect(entry, ORDER)
  {
    CollectFive(entry, [], DataCheck, ChainCheck, ChainRefCheck, ActionCheck, SenderCheck);
    CollectFive(entry, PARTY, RecipientCheck, AssetCheck, AmountCheck, NonceCheck, CallTargetCheck);
    CollectFive(entry, PARTY + TRANSFER, CalldataCheck, ValueCheck, SolanaCheck, OrderCheck, FillsCheck);
    CollectFive(entry, PARTY + TRANSFER + COMMITMENT, UserOperationCheck, EntryPointCheck, CodeHashCheck,
                AccountCallCheck, EntryPointVersionCheck);
    CollectFive(entry, PARTY + TRANSFER + COMMITMENT + OPERATION, TimeCheck, ConfirmationsCheck, ReorgDepthCheck,
                FinalizedCheck, GasKnownCheck);
    CollectFive(entry, PARTY + TRANSFER + COMMITMENT + OPERATION + FINALITY, GasCheck, TransferCheck,
                ExecutorCheck, AcceptedFirstCheck, WindowCheck);
    assert [] + PARTY == PARTY;
  }

  method BindingFor(c: Case) returns (binding: Binding)
    ensures binding == BindingOf(c)
  {
    ghost var entry := check => Entry(c, check);
    var reasons: seq<Reason> := [];
    ghost var beforeParty := reasons;
    reasons := Push(c, DataCheck, reasons);
    reasons := Push(c, ChainCheck, reasons);
    reasons := Push(c, ChainRefCheck, reasons);
    reasons := Push(c, ActionCheck, reasons);
    reasons := Push(c, SenderCheck, reasons);
    assert reasons == Five(entry, beforeParty, DataCheck, ChainCheck, ChainRefCheck, ActionCheck, SenderCheck);
    ghost var beforeTransfer := reasons;
    reasons := Push(c, RecipientCheck, reasons);
    reasons := Push(c, AssetCheck, reasons);
    reasons := Push(c, AmountCheck, reasons);
    reasons := Push(c, NonceCheck, reasons);
    reasons := Push(c, CallTargetCheck, reasons);
    assert reasons == Five(entry, beforeTransfer, RecipientCheck, AssetCheck, AmountCheck, NonceCheck, CallTargetCheck);
    ghost var beforeCommitment := reasons;
    reasons := Push(c, CalldataCheck, reasons);
    reasons := Push(c, ValueCheck, reasons);
    reasons := Push(c, SolanaCheck, reasons);
    reasons := Push(c, OrderCheck, reasons);
    reasons := Push(c, FillsCheck, reasons);
    assert reasons == Five(entry, beforeCommitment, CalldataCheck, ValueCheck, SolanaCheck, OrderCheck, FillsCheck);
    ghost var beforeOperation := reasons;
    reasons := Push(c, UserOperationCheck, reasons);
    reasons := Push(c, EntryPointCheck, reasons);
    reasons := Push(c, CodeHashCheck, reasons);
    reasons := Push(c, AccountCallCheck, reasons);
    reasons := Push(c, EntryPointVersionCheck, reasons);
    assert reasons == Five(entry, beforeOperation, UserOperationCheck, EntryPointCheck, CodeHashCheck,
                           AccountCallCheck, EntryPointVersionCheck);
    ghost var beforeFinality := reasons;
    reasons := Push(c, TimeCheck, reasons);
    reasons := Push(c, ConfirmationsCheck, reasons);
    reasons := Push(c, ReorgDepthCheck, reasons);
    reasons := Push(c, FinalizedCheck, reasons);
    reasons := Push(c, GasKnownCheck, reasons);
    assert reasons == Five(entry, beforeFinality, TimeCheck, ConfirmationsCheck, ReorgDepthCheck, FinalizedCheck,
                           GasKnownCheck);
    ghost var beforeWindow := reasons;
    reasons := Push(c, GasCheck, reasons);
    reasons := Push(c, TransferCheck, reasons);
    reasons := Push(c, ExecutorCheck, reasons);
    reasons := Push(c, AcceptedFirstCheck, reasons);
    reasons := Push(c, WindowCheck, reasons);
    assert reasons == Five(entry, beforeWindow, GasCheck, TransferCheck, ExecutorCheck, AcceptedFirstCheck,
                           WindowCheck);
    InOrderIsCollected(entry);
    var reasonCodes := Unique(reasons);
    binding := Binding(|reasonCodes| == 0, reasonCodes);
  }

  // ---------- Outcomes and compliance ----------

  datatype Outcome = ReorgedOutcome | PendingOutcome | FailedOutcome | Undetermined | Expired | Completed

  predicate IsReorged(e: Execution) {
    e.status.Reorged? || e.finality == Some(FinalityReorged)
  }

  predicate IsPending(e: Execution) {
    e.finality == Some(InsufficientFinalityState) || e.status.Pending?
  }

  /** The v2 outcome. */
  function OutcomeFor(intent: Intent, e: Execution, binding: Binding): Outcome {
    if IsReorged(e) then ReorgedOutcome
    else if IsPending(e) then PendingOutcome
    else if e.status.Reverted? then FailedOutcome
    else if e.status.NotFound? || e.status.RpcError? || e.status.UnsupportedChain? then Undetermined
    else if !e.status.Confirmed? || !binding.bound then Undetermined
    else if ExecutedAt(e) > intent.validUntil then Expired
    else Completed
  }

  /** The v3 outcome, which leaves the binding to the compliance assessment. */
  function ExecutionOutcomeFor(e: Execution): Outcome {
    if IsReorged(e) then ReorgedOutcome
    else if IsPending(e) then PendingOutcome
    else if e.status.Reverted? then FailedOutcome
    else if e.status.Confirmed? then Completed
    else Undetermined
  }

  datatype ComplianceStatus = Compliant | NonCompliant | NotAssessable

  datatype Assessment = Assessment(status: ComplianceStatus, reasonCodes: seq<Reason>)

  /** The reason says that the evidence is not there, rather than that it disagrees. */
  predicate SaysMissing(reason: Reason) {
    reason.ExecutionUnavailable? || reason.InsufficientFinality?
  }

  function Unavailable(reasons: seq<Reason>): seq<Reason> {
    if reasons == [] then []
    else (if SaysMissing(reasons[0]) then [reasons[0]] else []) + Unavailable(reasons[1..])
  }

  predicate ChainDiffers(c: Case) {
    c.execution.chainId != c.authorization.intent.chainId
  }

  predicate ChainRefDiffers(c: Case) {
    (c.authorization.solanaAuthorizer || IsHyperliquid(c.authorization.intent))
    && c.execution.chainRef != c.authorization.intent.chainRef
  }

  predicate ExecutorDiffers(c: Case) {
    var (sender, executor) := (TextOf(c.execution.sender), c.authorization.executor);
    if c.authorization.solanaAuthorizer then sender != executor else !SameLetters(sender, executor)
  }

  predicate NonceDiffers(c: Case) {
    TextOf(c.execution.nonce) != Printed(c.authorization.intent.nonce)
  }

  /** How the execution fails to belong to the authorization. */
  function Uncorrelated(c: Case): seq<Reason> {
    (if ChainDiffers(c) then [ChainMismatch] else []) + (if ChainRefDiffers(c) then [ChainMismatch] else [])
    + (if ExecutorDiffers(c) then [ExecutorMismatch] else []) + (if NonceDiffers(c) then [NonceMismatch] else [])
  }

  /** Why an execution cannot be judged; None when it can. */
  function Unassessable(c: Case, binding: Binding): Option<seq<Reason>> {
    var e := c.execution;
    var unavailable := Unavailable(binding.reasonCodes);
    if e.dataAvailable == Some(false) then Some([ExecutionUnavailable])
    else if IsReorged(e) then Some([ExecutionReorged])
    else if IsPending(e) then Some([ExecutionPending])
    else if e.status.NotFound? then Some([ExecutionNotFound])
    else if !e.status.Confirmed? && !e.status.Reverted? then Some([ExecutionUnavailable])
    else if unavailable != [] then Some(unavailable)
    else if Uncorrelated(c) != [] then Some(Uncorrelated(c))
    else None
  }

  function ComplianceOf(c: Case, binding: Binding): Assessment {
    match Unassessable(c, binding)
    case Some(reasons) => Assessment(NotAssessable, reasons)
    case None => if binding.bound then Assessment(Compliant, []) else Assessment(NonCompliant, binding.reasonCodes)
  }

  method ComplianceFor(c: Case, binding: Binding) returns (assessment: Assessment)
    ensures assessment == ComplianceOf(c, binding)
  {
    var e := c.execution;
    if e.dataAvailable == Some(false) {
      return Assessment(NotAssessable, [ExecutionUnavailable]);
    }
    if IsReorged(e) {
      return Assessment(NotAssessable, [ExecutionReorged]);
    }
    if IsPending(e) {
      return Assessment(NotAssessable, [ExecutionPending]);
    }
    if e.status.NotFound? {
      return Assessment(NotAssessable, [ExecutionNotFound]);
    }
    if e.status.RpcError? || e.status.UnsupportedChain? || !(e.status.Confirmed? || e.status.Reverted?) {
      return Assessment(NotAssessable, [ExecutionUnavailable]);
    }
    var unavailable := Unavailable(binding.reasonCodes);
    if |unavailable| > 0 {
      return Assessment(NotAssessable, unavailable);
    }
    var correlationReasons := [];
    if ChainDiffers(c) {
      correlationReasons := correlationReasons + [ChainMismatch];
    }
    if ChainRefDiffers(c) {
      correlationReasons := correlationReasons + [ChainMismatch];
    }
    if ExecutorDiffers(c) {
      correlationReasons := correlationReasons + [ExecutorMismatch];
    }
    if NonceDiffers(c) {
      correlationReasons := correlationReasons + [NonceMismatch];
    }
    if |correlationReasons| > 0 {
      return Assessment(NotAssessable, correlationReasons);
    }
    assessment := if binding.bound then Assessment(Compliant, []) else Assessment(NonCompliant, binding.reasonCodes);
  }

  // ---------- The two receipt versions ----------

  /** What the shape check asks that the verdicts depend on: a Solana authorizer only for a Solana intent, a nonce
      wherever there is a profile, and account calls only in user operations. */
  predicate ShapeValid(a: Authorization) {
    var i := a.intent;
    && (a.solanaAuthorizer ==> IsSolana(i))
    && (!i.profile.NoProfile? ==> i.nonce.Text?)
    && (i.accountCallProfile.Some? ==> i.profile.Erc4337?)
  }

  predicate CompletedV2(c: Case) {
    OutcomeFor(c.authorization.intent, c.execution, BindingOf(c)).Completed?
  }

  predicate CompletedAndCompliantV3(c: Case) {
    ExecutionOutcomeFor(c.execution).Completed? && ComplianceOf(c, BindingOf(c)).status.Compliant?
  }

  lemma BoundMeans(c: Case, check: Check)
    requires BindingOf(c).bound
    ensures !Fails(c, check)
  {
    BindingMeaning(c);
  }

  lemma PassedTime(c: Case)
    requires !Fails(c, TimeCheck)
    ensures ExecutedAt(c.execution) <= c.authorization.intent.validUntil
  {
  }

  lemma NotExpiredUnder(intent: Intent, e: Execution, binding: Binding)
    requires binding.bound ==> ExecutedAt(e) <= intent.validUntil
    ensures !OutcomeFor(intent, e, binding).Expired?
  {
  }

  /** Under the binding it is computed with, the v2 outcome is never EXPIRED. */
  lemma NeverExpired(c: Case)
    ensures !OutcomeFor(c.authorization.intent, c.execution, BindingOf(c)).Expired?
  {
    if BindingOf(c).bound {
      BoundMeans(c, TimeCheck);
      PassedTime(c);
    }
    NotExpiredUnder(c.authorization.intent, c.execution, BindingOf(c));
  }

  lemma PassedChain(c: Case)
    requires !Fails(c, ChainCheck) && !Fails(c, ChainRefCheck)
    ensures !ChainDiffers(c) && !ChainRefDiffers(c)
  {
  }

  lemma PassedExecutor(c: Case)
    requires !Fails(c, ExecutorCheck) && (c.authorization.solanaAuthorizer ==> IsSolana(c.authorization.intent))
    ensures !ExecutorDiffers(c)
  {
    EqualIsSame(c.authorization.executor);
  }

  lemma PassedNonce(c: Case)
    requires !Fails(c, NonceCheck)
    ensures NonceDiffers(c) <==> !c.authorization.intent.nonce.Text?
  {
  }

  lemma BoundCorrelates(c: Case)
    requires BindingOf(c).bound && ShapeValid(c.authorization)
    ensures !ChainDiffers(c) && !ChainRefDiffers(c) && !ExecutorDiffers(c)
    ensures NonceDiffers(c) <==> !c.authorization.intent.nonce.Text?
  {
    BindingMeaning(c);
    PassedChain(c);
    PassedExecutor(c);
    PassedNonce(c);
  }

  lemma CompliantGives(c: Case, binding: Binding)
    requires ExecutionOutcomeFor(c.execution).Completed? && ComplianceOf(c, binding).status.Compliant?
    requires !OutcomeFor(c.authorization.intent, c.execution, binding).Expired?
    ensures OutcomeFor(c.authorization.intent, c.execution, binding).Completed?
  {
  }

  /** v3 never accepts what v2 would not have called completed. */
  lemma CompliantIsCompleted(c: Case)
    requires CompletedAndCompliantV3(c)
    ensures CompletedV2(c)
  {
    NeverExpired(c);
    CompliantGives(c, BindingOf(c));
  }

  lemma PassedData(c: Case)
    requires !Fails(c, DataCheck)
    ensures c.execution.dataAvailable != Some(false)
  {
  }

  lemma AgreeUnder(c: Case, binding: Binding)
    requires binding.bound == (binding.reasonCodes == [])
    requires binding.bound ==>
               && c.execution.dataAvailable != Some(false)
               && ExecutedAt(c.execution) <= c.authorization.intent.validUntil
               && !ChainDiffers(c) && !ChainRefDiffers(c) && !ExecutorDiffers(c)
               && (NonceDiffers(c) <==> !c.authorization.intent.nonce.Text?)
    ensures
      var v2 := OutcomeFor(c.authorization.intent, c.execution, binding).Completed?;
      var v3 := ExecutionOutcomeFor(c.execution).Completed? && ComplianceOf(c, binding).status.Compliant?;
      (v2 <==> v3) <==> c.authorization.intent.nonce.Text? || !v2
  {
  }

  /** The versions differ on one execution exactly when v2 completes it and the intent has no nonce: the
      binding then compares with zero, the compliance assessment with the printed absence. */
  lemma CaseAgrees(c: Case)
    requires ShapeValid(c.authorization)
    ensures (CompletedV2(c) <==> CompletedAndCompliantV3(c)) <==> c.authorization.intent.nonce.Text? || !CompletedV2(c)
  {
    if BindingOf(c).bound {
      BoundMeans(c, DataCheck);
      PassedData(c);
      BoundMeans(c, TimeCheck);
      PassedTime(c);
      BoundCorrelates(c);
    }
    AgreeUnder(c, BindingOf(c));
  }

  // ---------- Which intents the versions judge alike ----------

  function Larger(x: int, y: int): int {
    if x < y then y else x
  }

  /** The executor may act as the sender, and after the acceptance there is a time in both windows. */
  predicate Completable(a: Authorization, acceptedAt: int) {
    && SameLetters(a.intent.sender, a.executor)
    && Larger(a.notBefore, acceptedAt) <= a.expiresAt && Larger(a.notBefore, acceptedAt) <= a.intent.validUntil
  }

  lemma {:induction false} SameTrans(x: string, y: string, z: string)
    requires SameLetters(x, y) && SameLetters(x, z)
    ensures SameLetters(y, z)
  {
    if x != "" {
      SameTrans(x[1..], y[1..], z[1..]);
    }
  }

  lemma SenderChecked(c: Case)
    requires !IsSolana(c.authorization.intent) && !Fails(c, SenderCheck) && !Fails(c, ExecutorCheck)
    ensures SameLetters(c.authorization.intent.sender, c.authorization.executor)
  {
    SameTrans(TextOf(c.execution.sender), c.authorization.intent.sender, c.authorization.executor);
  }

  lemma TimesChecked(c: Case)
    requires !Fails(c, TimeCheck) && !Fails(c, AcceptedFirstCheck) && !Fails(c, WindowCheck)
    ensures Larger(c.authorization.notBefore, c.acceptedAt) <= ExecutedAt(c.execution)
    ensures ExecutedAt(c.execution) <= c.authorization.expiresAt
    ensures ExecutedAt(c.execution) <= c.authorization.intent.validUntil
  {
  }

  lemma CompletedIsCompletable(c: Case)
    requires CompletedV2(c) && !IsSolana(c.authorization.intent)
    ensures Completable(c.authorization, c.acceptedAt)
  {
    BindingMeaning(c);
    SenderChecked(c);
    TimesChecked(c);
  }

  function EnoughConfirmations(c: Constraints): int {
    Larger(match c.minConfirmations case None => 0 case Some(n) => n,
           match c.maxToleratedReorgDepth case None => 0 case Some(n) => n + 1)
  }

  /** The confirmed and final execution, with nonce zero, of exactly what a plain intent asks. */
  function ExactExecution(a: Authorization, acceptedAt: int): Execution {
    var i := a.intent;
    Execution(None, Confirmed, Some(Finalized), i.chainId, i.chainRef, Some(i.action), Some(i.sender),
              Some(i.recipient), Some(i.asset), Some(i.amount), Some("0"), i.callTarget, i.calldataHash,
              i.transactionValue, None, false, false, None, None, None, None, None, None, None, None,
              Some(Larger(a.notBefore, acceptedAt)), None, Some(EnoughConfirmations(i.constraints)),
              i.constraints.maxGasUsed, None, false)
  }

  lemma ExactExecutionPasses(a: Authorization, acceptedAt: int, check: Check)
    requires ShapeValid(a) && !a.intent.nonce.Text? && Completable(a, acceptedAt)
    ensures !Fails(Case(a, ExactExecution(a, acceptedAt), acceptedAt), check)
  {
    var i := a.intent;
    EqualIsSame(i.action);
    EqualIsSame(i.sender);
    EqualIsSame(i.recipient);
    EqualIsSame(i.asset);
    EqualIsSame(TextOf(i.callTarget));
    EqualIsSame(TextOf(i.calldataHash));
  }

  /** Every completable intent without a nonce, whatever its calls and constraints, has an execution on which the
      versions disagree. */
  lemma VersionsDisagreeWithoutNonce(a: Authorization, acceptedAt: int)
    requires ShapeValid(a) && !a.intent.nonce.Text? && Completable(a, acceptedAt)
    ensures var c := Case(a, ExactExecution(a, acceptedAt), acceptedAt); CompletedV2(c) && !CompletedAndCompliantV3(c)
  {
    var c := Case(a, ExactExecution(a, acceptedAt), acceptedAt);
    forall check ensures !Fails(c, check) {
      ExactExecutionPasses(a, acceptedAt, check);
    }
    BindingMeaning(c);
    PassedTime(c);
    CaseAgrees(c);
  }

  /** The versions judge every execution of an authorization alike exactly when its intent has a nonce, or no
      execution can complete it. */
  lemma VersionsAgree(a: Authorization, acceptedAt: int)
    requires ShapeValid(a)
    ensures (forall e ::
               CompletedV2(Case(a, e, acceptedAt)) <==> CompletedAndCompliantV3(Case(a, e, acceptedAt)))
       <==> a.intent.nonce.Text? || !Completable(a, acceptedAt)
  {
    if !a.intent.nonce.Text? && Completable(a, acceptedAt) {
      VersionsDisagreeWithoutNonce(a, acceptedAt);
    } else {
      forall e ensures CompletedV2(Case(a, e, acceptedAt)) <==> CompletedAndCompliantV3(Case(a, e, acceptedAt)) {
        CaseAgrees(Case(a, e, acceptedAt));
        if CompletedV2(Case(a, e, acceptedAt)) && !a.intent.nonce.Text? {
          CompletedIsCompletable(Case(a, e, acceptedAt));
        }
      }
    }
  }

  // ---------- What a compliance assessment means ----------

  lemma {:induction false} UnavailableMembers(reasons: seq<Reason>)
    ensures Unavailable(reasons) == [] <==> forall reason :: reason in reasons ==> !SaysMissing(reason)
  {
    if reasons != [] {
      UnavailableMembers(reasons[1..]);
      assert reasons[0] in reasons;
      forall reason ensures reason in reasons <==> reason == reasons[0] || reason in reasons[1..] {
        assert reasons == [reasons[0]] + reasons[1..];
      }
    }
  }

  predicate Correlated(c: Case) {
    !ChainDiffers(c) && !ChainRefDiffers(c) && !ExecutorDiffers(c) && !NonceDiffers(c)
  }

  /** The transaction is on the chain for good, successful or not. */
  predicate Settled(e: Execution) {
    (e.status.Confirmed? || e.status.Reverted?) && !IsReorged(e) && !IsPending(e)
  }

  /** Some check fails for want of evidence, rather than because the evidence disagrees. */
  ghost predicate EvidenceMissing(c: Case) {
    exists check :: Fails(c, check) && SaysMissing(ReasonOf(check))
  }

  lemma MissingIsNamed(c: Case)
    ensures EvidenceMissing(c) <==> Unavailable(BindingOf(c).reasonCodes) != []
    ensures c.execution.dataAvailable == Some(false) ==> EvidenceMissing(c)
  {
    var codes := BindingOf(c).reasonCodes;
    BindingMeaning(c);
    UnavailableMembers(codes);
    if check :| Fails(c, check) && SaysMissing(ReasonOf(check)) {
      assert Adds(c, check, ReasonOf(check));
    }
    if reason :| reason in codes && SaysMissing(reason) {
      var check :| Adds(c, check, reason);
      assert Fails(c, check) && SaysMissing(ReasonOf(check));
    }
    if c.execution.dataAvailable == Some(false) {
      assert Fails(c, DataCheck) && SaysMissing(ReasonOf(DataCheck));
    }
  }

  lemma StatusUnder(c: Case, binding: Binding, missing: bool)
    requires missing <==> Unavailable(binding.reasonCodes) != []
    requires c.execution.dataAvailable == Some(false) ==> missing
    ensures ComplianceOf(c, binding).status
         == if !Settled(c.execution) || missing || !Correlated(c) then NotAssessable
            else if binding.bound then Compliant else NonCompliant
  {
  }

  /** An execution can be judged exactly when it is settled, no evidence is missing, and it belongs to the
      authorization by chain, executor and nonce; it then complies exactly when no check fails. */
  lemma ComplianceExactly(c: Case)
    ensures ComplianceOf(c, BindingOf(c)).status.NotAssessable?
       <==> !Settled(c.execution) || EvidenceMissing(c) || !Correlated(c)
    ensures ComplianceOf(c, BindingOf(c)).status.Compliant?
       <==> Settled(c.execution) && Correlated(c) && forall check :: !Fails(c, check)
    ensures ComplianceOf(c, BindingOf(c)).status.NonCompliant?
       <==> Settled(c.execution) && Correlated(c) && !EvidenceMissing(c) && exists check :: Fails(c, check)
  {
    BindingMeaning(c);
    MissingIsNamed(c);
    StatusUnder(c, BindingOf(c), EvidenceMissing(c));
  }

  /** What each reason of an assessment that judges nothing says. */
  ghost predicate Explains(c: Case, reason: Reason) {
    || (reason.ExecutionReorged? && IsReorged(c.execution))
    || (reason.ExecutionPending? && IsPending(c.execution))
    || (reason.ExecutionNotFound? && c.execution.status.NotFound?)
    || (reason.ExecutionUnavailable? && !Settled(c.execution))
    || (SaysMissing(reason) && EvidenceMissing(c))
    || (reason.ChainMismatch? && (ChainDiffers(c) || ChainRefDiffers(c)))
    || (reason.ExecutorMismatch? && ExecutorDiffers(c))
    || (reason.NonceMismatch? && NonceDiffers(c))
  }

  lemma {:induction false} UnavailableSays(reasons: seq<Reason>)
    ensures forall reason :: reason in Unavailable(reasons) ==> SaysMissing(reason) && Unavailable(reasons) != []
  {
    if reasons != [] {
      UnavailableSays(reasons[1..]);
    }
  }

  lemma UncorrelatedSays(c: Case, reason: Reason)
    requires reason in Uncorrelated(c)
    ensures Explains(c, reason)
  {
  }

  lemma ReasonUnder(c: Case, binding: Binding, reason: Reason)
    requires Unavailable(binding.reasonCodes) != [] ==> EvidenceMissing(c)
    requires c.execution.dataAvailable == Some(false) ==> EvidenceMissing(c)
    requires Unassessable(c, binding).Some? && reason in Unassessable(c, binding).value
    ensures Explains(c, reason)
  {
    UnavailableSays(binding.reasonCodes);
    if reason in Uncorrelated(c) {
      UncorrelatedSays(c, reason);
    }
  }

  /** An assessment that judges nothing always says why, and what it says is so. */
  lemma NotAssessableReasons(c: Case)
    requires ComplianceOf(c, BindingOf(c)).status.NotAssessable?
    ensures ComplianceOf(c, BindingOf(c)).reasonCodes != []
    ensures forall reason :: reason in ComplianceOf(c, BindingOf(c)).reasonCodes ==> Explains(c, reason)
  {
    MissingIsNamed(c);
    forall reason | reason in ComplianceOf(c, BindingOf(c)).reasonCodes ensures Explains(c, reason) {
      ReasonUnder(c, BindingOf(c), reason);
    }
  }

  lemma NonCompliantGives(c: Case, binding: Binding)
    requires ComplianceOf(c, binding).status.NonCompliant?
    ensures ComplianceOf(c, binding).reasonCodes == binding.reasonCodes && !binding.bound
  {
  }

  lemma BindingIsBound(c: Case)
    ensures BindingOf(c).bound <==> BindingOf(c).reasonCodes == []
  {
  }

  lemma ChainCode(c: Case)
    ensures ChainMismatch in BindingOf(c).reasonCodes <==> Fails(c, ChainCheck)
  {
    BindingMeaning(c);
    assert Adds(c, ChainCheck, ChainMismatch) <==> Fails(c, ChainCheck);
  }

  lemma NonceCode(c: Case)
    ensures NonceMismatch in BindingOf(c).reasonCodes <==> Fails(c, NonceCheck)
  {
    BindingMeaning(c);
    assert Adds(c, NonceCheck, NonceMismatch) <==> Fails(c, NonceCheck);
  }

  lemma ExecutorCode(c: Case)
    ensures ExecutorMismatch in BindingOf(c).reasonCodes <==> Fails(c, ExecutorCheck)
  {
    BindingMeaning(c);
    assert Adds(c, ExecutorCheck, ExecutorMismatch) <==> Fails(c, ExecutorCheck);
  }

  lemma CorrelatedChecks(c: Case)
    requires Correlated(c)
    ensures !Fails(c, ChainCheck)
    ensures Fails(c, NonceCheck) <==> !c.authorization.intent.nonce.Text?
    ensures Fails(c, ExecutorCheck)
       <==> IsSolana(c.authorization.intent) && TextOf(c.execution.sender) != c.authorization.executor
  {
    EqualIsSame(c.authorization.executor);
  }

  /** The reasons of a non-compliance are those of the binding. They never name the chain; the nonce exactly when
      the intent has none; and the executor exactly for a Solana intent whose sender is the executor but for the case
      of letters, which takes an authorizer that is not a Solana key. */
  lemma NonCompliantReasons(c: Case)
    requires ComplianceOf(c, BindingOf(c)).status.NonCompliant?
    ensures ComplianceOf(c, BindingOf(c)).reasonCodes == BindingOf(c).reasonCodes != []
    ensures ChainMismatch !in BindingOf(c).reasonCodes
    ensures NonceMismatch in BindingOf(c).reasonCodes <==> !c.authorization.intent.nonce.Text?
    ensures ExecutorMismatch in BindingOf(c).reasonCodes
       <==> IsSolana(c.authorization.intent) && TextOf(c.execution.sender) != c.authorization.executor
    ensures ExecutorMismatch in BindingOf(c).reasonCodes ==>
              !c.authorization.solanaAuthorizer && SameLetters(TextOf(c.execution.sender), c.authorization.executor)
  {
    ComplianceExactly(c);
    ChainCode(c);
    NonceCode(c);
    ExecutorCode(c);
    CorrelatedChecks(c);
    NonCompliantGives(c, BindingOf(c));
    BindingIsBound(c);
  }

  // ---------- When a non-compliance can name the executor ----------

  predicate HasLetter(s: string) {
    exists i :: 0 <= i < |s| && IsLetter(s[i])
  }

  function OtherCase(c: char): char {
    if 'A' <= c <= 'Z' then c - 'A' + 'a' else if 'a' <= c <= 'z' then c - 'a' + 'A' else c
  }

  function Recased(s: string): string {
    if s == "" then "" else [OtherCase(s[0])] + Recased(s[1..])
  }

  lemma LetterAhead(s: string)
    requires s != ""
    ensures HasLetter(s) <==> IsLetter(s[0]) || HasLetter(s[1..])
  {
    if i :| 0 <= i < |s| && IsLetter(s[i]) {
      assert i > 0 ==> s[1..][i - 1] == s[i];
    }
    if i :| 0 <= i < |s[1..]| && IsLetter(s[1..][i]) {
      assert s[i + 1] == s[1..][i];
    }
  }

  lemma {:induction false} RecasedIsSame(s: string)
    ensures SameLetters(Recased(s), s)
    ensures Recased(s) == s <==> !HasLetter(s)
  {
    if s != "" {
      RecasedIsSame(s[1..]);
      assert Recased(s)[0] == OtherCase(s[0]) && Recased(s)[1..] == Recased(s[1..]);
      assert Recased(s) == s <==> OtherCase(s[0]) == s[0] && Recased(s[1..]) == s[1..];
      LetterAhead(s);
    }
  }

  lemma {:induction false} OnlyCaseDiffers(x: string, y: string)
    requires SameLetters(x, y) && x != y
    ensures HasLetter(y)
  {
    if y != "" {
      LetterAhead(y);
      if x[0] == y[0] {
        assert x == [x[0]] + x[1..] && y == [y[0]] + y[1..];
        OnlyCaseDiffers(x[1..], y[1..]);
      }
    }
  }

  ghost predicate NamesExecutor(c: Case) {
    && ComplianceOf(c, BindingOf(c)).status.NonCompliant?
    && ExecutorMismatch in ComplianceOf(c, BindingOf(c)).reasonCodes
  }

  /** The confirmed and final execution of the intent by the executor, spelled in the other case. */
  function RecasedExecution(a: Authorization): Execution {
    var i := a.intent;
    Execution(None, Confirmed, Some(Finalized), i.chainId, i.chainRef, Some(i.action), Some(Recased(a.executor)),
              Some(i.recipient), Some(i.asset), Some(i.amount), Some(Printed(i.nonce)), i.callTarget, i.calldataHash,
              i.transactionValue, i.solanaTransaction, false, false, None, None, None, None, None, None, None, None,
              Some(a.notBefore), None, Some(EnoughConfirmations(i.constraints)), i.constraints.maxGasUsed, None, false)
  }

  lemma RecasedHasEvidence(a: Authorization, acceptedAt: int, check: Check)
    requires IsSolana(a.intent) && SaysMissing(ReasonOf(check))
    ensures !Fails(Case(a, RecasedExecution(a), acceptedAt), check)
  {
  }

  lemma RecasedIsCorrelated(a: Authorization, acceptedAt: int)
    requires IsSolana(a.intent) && !a.solanaAuthorizer
    ensures Correlated(Case(a, RecasedExecution(a), acceptedAt))
  {
    RecasedIsSame(a.executor);
  }

  lemma RecasedNamesExecutor(a: Authorization, acceptedAt: int)
    requires IsSolana(a.intent) && !a.solanaAuthorizer && HasLetter(a.executor)
    ensures NamesExecutor(Case(a, RecasedExecution(a), acceptedAt))
  {
    var c := Case(a, RecasedExecution(a), acceptedAt);
    RecasedIsCorrelated(a, acceptedAt);
    RecasedIsSame(a.executor);
    CorrelatedChecks(c);
    forall check | SaysMissing(ReasonOf(check)) ensures !Fails(c, check) {
      RecasedHasEvidence(a, acceptedAt, check);
    }
    ComplianceExactly(c);
    NonCompliantReasons(c);
  }

  /** Some execution of an authorization is NON_COMPLIANT for its executor exactly when the intent is a Solana one,
      the authorizer is not a Solana key, and the executor is spelled with a letter. */
  lemma ExecutorNamedExactly(a: Authorization, acceptedAt: int)
    ensures (exists e :: NamesExecutor(Case(a, e, acceptedAt)))
       <==> IsSolana(a.intent) && !a.solanaAuthorizer && HasLetter(a.executor)
  {
    if e :| NamesExecutor(Case(a, e, acceptedAt)) {
      NonCompliantReasons(Case(a, e, acceptedAt));
      OnlyCaseDiffers(TextOf(e.sender), a.executor);
    }
    if IsSolana(a.intent) && !a.solanaAuthorizer && HasLetter(a.executor) {
      RecasedNamesExecutor(a, acceptedAt);
    }
  }
}
