// The guarded action event by event: under which conditions on the record and the payload an event is accepted, and
// the whole record it leaves.
module WalletEvents {
  import opened Ascii
  import opened JsNumbers
  import opened WalletGuard
  import opened Wrappers

  predicate Alphanumeric(c: char) {
    '0' <= c <= '9' || 'A' <= c <= 'Z' || 'a' <= c <= 'z'
  }

  predicate Hexadecimal(c: char) {
    '0' <= c <= '9' || 'A' <= c <= 'F' || 'a' <= c <= 'f'
  }

  /** Identifiers: 3 to 128 characters, the first a letter or a digit. */
  lemma IdentifiersExactly(s: string)
    ensures IsActionId(s)
       <==> && 3 <= |s| <= 128 && Alphanumeric(s[0])
            && forall i :: 1 <= i < |s| ==> Alphanumeric(s[i]) || s[i] in {'.', '_', ':', '-'}
  {
  }

  /** Addresses and transaction hashes: a prefix and so many hexadecimal digits of either case. */
  lemma HexTextExactly(s: string, n: nat)
    ensures IsHexText(s, n)
       <==> |s| == n + 2 && s[..2] == "0x" && forall i :: 2 <= i < |s| ==> Hexadecimal(s[i])
  {
    if |s| == n + 2 {
      assert s[..2] == [s[0], s[1]];
    }
  }

  /** Lower case moves the letters from A to Z by 32 and keeps every other character. */
  lemma LowerExactly(s: string, i: nat)
    requires i < |s|
    ensures |Lower(s)| == |s|
    ensures 'A' <= s[i] <= 'Z' ==> Lower(s)[i] as int == s[i] as int + 32
    ensures !('A' <= s[i] <= 'Z') ==> Lower(s)[i] == s[i]
  {
  }

  /** A new record has its identifiers and waits for a risk assessment. */
  lemma Created(actionId: string, intentId: string, chainId: int)
    ensures WellFormed(Create(actionId, intentId, chainId))
       <==> IsActionId(actionId) && IsActionId(intentId) && 1 <= chainId < 9007199254740992
    ensures var a := Create(actionId, intentId, chainId);
      && a.actionId == actionId && a.intentId == intentId && a.chainId == chainId && a.state == AwaitingRisk
      && a.risk == None && a.authorization == None && a.submission == None && a.observation == None
      && a.verification == None && a.history == []
  {
  }

  /** Every event asks for a well-formed record and a time. */
  predicate Ready(a: Action, at: int) {
    && IsActionId(a.actionId) && IsActionId(a.intentId) && 1 <= a.chainId < 9007199254740992
    && 0 <= at < 9007199254740992
  }

  /** The record in its new state, with one more entry in its history. */
  function Moved(a: Action, event: EventType, from: State, to: State, at: int): Action {
    a.(state := to, history := a.history + [Transition(event, from, to, at)])
  }

  /** Risk: once, and only BLOCK stops the action. */
  lemma RiskEvent(a: Action, verdict: Option<Verdict>, decisionId: Option<string>, at: int)
    ensures Next(a, RiskEvaluated(verdict, decisionId), at)
         == if Ready(a, at) && a.state == AwaitingRisk && verdict.Some?
               && (decisionId.Some? ==> |decisionId.value| <= 256)
            then
              Some(Moved(a.(risk := Some(Risk(verdict.value, decisionId, at))), RiskEvaluatedEvent, AwaitingRisk,
                         if verdict.value == Block then RiskBlocked else RiskCleared, at))
            else None
  {
  }

  /** Preparation and the request for a signature add no evidence. */
  lemma PreparationEvents(a: Action, at: int)
    ensures Next(a, AuthorizationPrepared, at)
         == if Ready(a, at) && a.state == RiskCleared
            then Some(Moved(a, PreparedEvent, RiskCleared, Prepared, at)) else None
    ensures Next(a, SignatureRequested, at)
         == if Ready(a, at) && a.state == Prepared
            then Some(Moved(a, SignatureRequestedEvent, Prepared, AwaitingSignature, at)) else None
  {
  }

  /** Authorization: for this intent on this chain, by an address; active or not it is recorded. */
  lemma AuthorizationEvent(a: Action, accepted: Option<AcceptedAuthorization>, checkedAt: Option<int>, active: bool, at: int)
    ensures Next(a, AuthorizationAccepted(accepted, checkedAt, active), at)
         == if Ready(a, at) && (a.state == Prepared || a.state == AwaitingSignature)
               && accepted.Some? && checkedAt.Some?
               && accepted.value.intentId == a.intentId && accepted.value.chainId == a.chainId
               && IsHexText(accepted.value.account, 40) && 0 <= accepted.value.expiresAt < 9007199254740992
            then
              Some(Moved(a.(authorization := Some(Authorization(accepted.value.authorizationId,
                                                                Lower(accepted.value.account),
                                                                accepted.value.expiresAt, checkedAt.value))),
                         AcceptedEvent, a.state, if active then Authorized else Unknown, at))
            else None
  {
  }

  /** Submission: a transaction hash under an authorization that has not expired, in whole seconds. */
  lemma SubmissionEvents(a: Action, txHash: string, at: int)
    ensures Next(a, SubmissionRecorded(txHash), at)
         == if Ready(a, at) && a.state == Authorized && IsHexText(txHash, 64)
               && a.authorization.Some? && at / 1000 < a.authorization.value.expiresAt
            then Some(Moved(a.(submission := Some(Submission(Lower(txHash), at))), SubmissionEvent, Authorized,
                            Submitted, at))
            else None
  {
  }

  /** Observation: of the submitted transaction and no other; where it ends depends on the status. */
  lemma ObservationEvents(a: Action, status: Option<ExecutionStatus>, observedHash: Option<string>,
                          receiptId: Option<string>, at: int)
    ensures Next(a, ObservationStarted, at)
         == if Ready(a, at) && (a.state == Submitted || a.state == Unknown) && a.submission.Some?
            then Some(Moved(a, ObservationStartedEvent, a.state, Observing, at)) else None
    ensures Next(a, ObservationRecorded(status, observedHash, receiptId), at)
         == if Ready(a, at) && a.state == Observing && a.submission.Some? && status.Some?
               && (observedHash == None || observedHash == Some("")
                   || Lower(observedHash.value) == a.submission.value.txHash)
            then
              Some(Moved(a.(observation := Some(Observation(status.value, receiptId, at))), ObservationRecordedEvent,
                         Observing,
                         match status.value
                         case Confirmed => Observed
                         case Reverted => Failed
                         case Pending => Observing
                         case Reorged => Unknown
                         case NotFound => Unknown
                         case RpcError => Unknown
                         case RpcTimeout => Unknown
                         case UnsupportedChain => Unknown, at))
            else None
  {
  }

  /** Verification: of the observed receipt; only a valid one is recorded. */
  lemma VerificationEvents(a: Action, verifiedId: string, valid: bool, at: int)
    ensures Next(a, VerificationRecorded(verifiedId, valid), at)
         == if Ready(a, at) && a.state == Observed && 1 <= |verifiedId| <= 256
               && a.observation.Some? && a.observation.value.receiptId == Some(verifiedId)
            then
              if valid then Some(Moved(a.(verification := Some(Verification(verifiedId, at))), VerificationEvent,
                                       Observed, Verified, at))
              else Some(Moved(a, VerificationEvent, Observed, Failed, at))
            else None
  {
  }

  lemma FailsFrom(state: State)
    ensures AllowedFrom(FailedEvent, state) <==> state !in {RiskBlocked, Verified, Failed, Cancelled, Unknown}
  {
    match state {
      case AwaitingRisk =>
      case RiskBlocked =>
      case RiskCleared =>
      case Prepared =>
      case AwaitingSignature =>
      case Authorized =>
      case Submitted =>
      case Observing =>
      case Observed =>
      case Verified =>
      case Unknown =>
      case Failed =>
      case Cancelled =>
    }
  }

  /** Failure comes from every state that is neither final nor UNKNOWN, cancellation only before a submission. */
  lemma EndingEvents(a: Action, at: int)
    ensures Next(a, ActionFailed, at)
         == if Ready(a, at) && a.state !in {RiskBlocked, Verified, Failed, Cancelled, Unknown}
            then Some(Moved(a, FailedEvent, a.state, Failed, at)) else None
    ensures Next(a, ActionCancelled, at)
         == if Ready(a, at) && a.state in {AwaitingRisk, RiskCleared, Prepared, AwaitingSignature, Authorized}
            then Some(Moved(a, CancelledEvent, a.state, Cancelled, at)) else None
  {
    FailsFrom(a.state);
  }

  /** The flags of the summary: final states, the one state that may submit, and those that may observe. */
  lemma SummaryExactly(state: State)
    ensures Summary(state).terminal <==> state in {RiskBlocked, Verified, Failed, Cancelled}
    ensures Summary(state).maySubmit <==> state == Authorized
    ensures Summary(state).mayObserve <==> state in {Submitted, Observing, Unknown}
  {
  }

  /** The entry starts where the one before it ended, the first in AWAITING_RISK, from a state its event is
      accepted in. */
  predicate Joined(history: seq<Transition>, i: nat)
    requires i < |history|
  {
    && history[i].from == (if i == 0 then AwaitingRisk else history[i - 1].to)
    && AllowedFrom(history[i].event, history[i].from)
  }

  /** Every entry of a history is joined to the one before it, and the last one ends in the state. */
  lemma {:induction false} PathOnFields(history: seq<Transition>, state: State)
    ensures ConnectedPath(history, state)
       <==> && state == (if history == [] then AwaitingRisk else history[|history| - 1].to)
            && forall i :: 0 <= i < |history| ==> Joined(history, i)
  {
    if history != [] {
      var (front, last) := (history[..|history| - 1], history[|history| - 1]);
      PathOnFields(front, last.from);
      assert forall i :: 0 <= i < |front| ==> (Joined(front, i) <==> Joined(history, i));
      assert Joined(history, |front|)
        <==> && last.from == (if front == [] then AwaitingRisk else front[|front| - 1].to)
             && AllowedFrom(last.event, last.from);
    }
  }

  /** What the counts of submissions and of events other than observations count. */
  lemma CountsOnFields(history: seq<Transition>, last: Transition)
    ensures Submissions([]) == 0 && OtherEvents([]) == 0
    ensures Submissions(history + [last]) == Submissions(history) + if last.event == SubmissionEvent then 1 else 0
    ensures OtherEvents(history + [last])
         == OtherEvents(history)
            + if last.event == ObservationStartedEvent || last.event == ObservationRecordedEvent then 0 else 1
  {
    assert (history + [last])[..|history|] == history;
  }
}
