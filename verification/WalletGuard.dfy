// The guarded-action state machine: one wallet- or agent-mediated action from risk assessment to
// a verified receipt, and what holds along every run of it.
module WalletGuard {
  import opened Ascii
  import opened JsNumbers
  import opened Wrappers

  datatype State =
    | AwaitingRisk | RiskBlocked | RiskCleared | Prepared | AwaitingSignature | Authorized | Submitted
    | Observing | Observed | Verified | Unknown | Failed | Cancelled

  datatype Verdict = Allow | Caution | Block

  datatype ExecutionStatus =
    | Pending | Confirmed | Reverted | Reorged | NotFound | RpcError | RpcTimeout | UnsupportedChain

  datatype Risk = Risk(verdict: Verdict, decisionId: Option<string>, assessedAt: int)

  datatype Authorization = Authorization(authorizationId: string, account: string, expiresAt: int, acceptedAt: int)

  datatype Submission = Submission(txHash: string, submittedAt: int)

  datatype Observation = Observation(status: ExecutionStatus, receiptId: Option<string>, observedAt: int)

  datatype Verification = Verification(receiptId: string, verifiedAt: int)

  datatype EventType =
    | RiskEvaluatedEvent | PreparedEvent | SignatureRequestedEvent | AcceptedEvent | SubmissionEvent
    | ObservationStartedEvent | ObservationRecordedEvent | VerificationEvent | FailedEvent | CancelledEvent

  datatype Transition = Transition(event: EventType, from: State, to: State, at: int)

  datatype Action = Action(
    actionId: string,
    intentId: string,
    chainId: int,
    state: State,
    risk: Option<Risk>,
    authorization: Option<Authorization>,
    submission: Option<Submission>,
    observation: Option<Observation>,
    verification: Option<Verification>,
    history: seq<Transition>)

  /** The part of an accepted authorization the transition reads. */
  datatype AcceptedAuthorization = AcceptedAuthorization(
    authorizationId: string, intentId: string, chainId: int, account: string, expiresAt: int)

  /** None stands for a payload member that is missing or outside its enumeration. */
  datatype Event =
    | RiskEvaluated(verdict: Option<Verdict>, decisionId: Option<string>)
    | AuthorizationPrepared
    | SignatureRequested
    | AuthorizationAccepted(accepted: Option<AcceptedAuthorization>, checkedAt: Option<int>, active: bool)
    | SubmissionRecorded(txHash: string)
    | ObservationStarted
    | ObservationRecorded(status: Option<ExecutionStatus>, observedHash: Option<string>, receiptId: Option<string>)
    | VerificationRecorded(verifiedId: string, valid: bool)
    | ActionFailed
    | ActionCancelled

  function TypeOf(event: Event): EventType {
    match event
    case RiskEvaluated(_, _) => RiskEvaluatedEvent
    case AuthorizationPrepared => PreparedEvent
    case SignatureRequested => SignatureRequestedEvent
    case AuthorizationAccepted(_, _, _) => AcceptedEvent
    case SubmissionRecorded(_) => SubmissionEvent
    case ObservationStarted => ObservationStartedEvent
    case ObservationRecorded(_, _, _) => ObservationRecordedEvent
    case VerificationRecorded(_, _) => VerificationEvent
    case ActionFailed => FailedEvent
    case ActionCancelled => CancelledEvent
  }

  // ---------- Text checks ----------

  predicate IsActionId(s: string) {
    && 3 <= |s| <= 128
    && (IsLetter(s[0]) || IsDigit(s[0]))
    && forall i :: 1 <= i < |s| ==> IsLetter(s[i]) || IsDigit(s[i]) || s[i] in "._:-"
  }

  /** `0x` and `n` hexadecimal digits. */
  predicate IsHexText(s: string, n: nat) {
    |s| == n + 2 && s[0] == '0' && s[1] == 'x' && forall i :: 2 <= i < |s| ==> IsHex(s[i])
  }

  /** What every operation asks of a record. */
  predicate WellFormed(a: Action) {
    IsActionId(a.actionId) && IsActionId(a.intentId) && 1 <= a.chainId <= MAX_SAFE_INTEGER
  }

  predicate AllowedFrom(event: EventType, from: State) {
    match event
    case RiskEvaluatedEvent => from.AwaitingRisk?
    case PreparedEvent => from.RiskCleared?
    case SignatureRequestedEvent => from.Prepared?
    case AcceptedEvent => from.Prepared? || from.AwaitingSignature?
    case SubmissionEvent => from.Authorized?
    case ObservationStartedEvent => from.Submitted? || from.Unknown?
    case ObservationRecordedEvent => from.Observing?
    case VerificationEvent => from.Observed?
    case FailedEvent =>
      from in {AwaitingRisk, RiskCleared, Prepared, AwaitingSignature, Authorized, Submitted, Observing, Observed}
    case CancelledEvent => from in {AwaitingRisk, RiskCleared, Prepared, AwaitingSignature, Authorized}
  }

  predicate UsableReceiptId(receiptId: string) { 1 <= |receiptId| <= 256 }

  // ---------- The transition table ----------

  /** What an event's payload must satisfy against the record it is applied to. */
  predicate Acceptable(a: Action, event: Event, at: int) {
    match event
    case RiskEvaluated(verdict, decisionId) =>
      verdict.Some? && (decisionId.Some? ==> |decisionId.value| <= 256)
    case AuthorizationAccepted(accepted, checkedAt, _) =>
      && accepted.Some? && checkedAt.Some?
      && accepted.value.intentId == a.intentId && accepted.value.chainId == a.chainId
      && IsHexText(accepted.value.account, 40)
      && 0 <= accepted.value.expiresAt <= MAX_SAFE_INTEGER
    case SubmissionRecorded(txHash) =>
      IsHexText(txHash, 64) && a.authorization.Some? && a.authorization.value.expiresAt > at / 1000
    case ObservationStarted => a.submission.Some?
    case ObservationRecorded(status, observedHash, _) =>
      && a.submission.Some? && status.Some?
      && (observedHash.Some? && observedHash.value != "" ==> Lower(observedHash.value) == a.submission.value.txHash)
    case VerificationRecorded(verifiedId, _) =>
      UsableReceiptId(verifiedId) && a.observation.Some? && a.observation.value.receiptId == Some(verifiedId)
    case _ => true
  }

  predicate IsTime(at: int) { 0 <= at <= MAX_SAFE_INTEGER }

  predicate Enabled(a: Action, event: Event, at: int) {
    WellFormed(a) && IsTime(at) && AllowedFrom(TypeOf(event), a.state) && Acceptable(a, event, at)
  }

  function Target(event: Event): State {
    match event
    case RiskEvaluated(verdict, _) => if verdict == Some(Block) then RiskBlocked else RiskCleared
    case AuthorizationPrepared => Prepared
    case SignatureRequested => AwaitingSignature
    case AuthorizationAccepted(_, _, active) => if active then Authorized else Unknown
    case SubmissionRecorded(_) => Submitted
    case ObservationStarted => Observing
    case ObservationRecorded(status, _, _) =>
      if status == Some(Confirmed) then Observed
      else if status == Some(Reverted) then Failed
      else if status == Some(Pending) then Observing
      else Unknown
    case VerificationRecorded(_, valid) => if valid then Verified else Failed
    case ActionFailed => Failed
    case ActionCancelled => Cancelled
  }

  /** The evidence an event adds; everything else of the record stays. */
  function Recorded(a: Action, event: Event, at: int): Action
    requires Enabled(a, event, at)
  {
    match event
    case RiskEvaluated(verdict, decisionId) => a.(risk := Some(Risk(verdict.value, decisionId, at)))
    case AuthorizationAccepted(accepted, checkedAt, _) =>
      var it := accepted.value;
      a.(authorization :=
        Some(Authorization(it.authorizationId, Lower(it.account), it.expiresAt, checkedAt.value)))
    case SubmissionRecorded(txHash) => a.(submission := Some(Submission(Lower(txHash), at)))
    case ObservationRecorded(status, _, receiptId) =>
      a.(observation := Some(Observation(status.value, receiptId, at)))
    case VerificationRecorded(verifiedId, valid) =>
      if valid then a.(verification := Some(Verification(verifiedId, at))) else a
    case _ => a
  }

  function Next(a: Action, event: Event, at: int): Option<Action> {
    if !Enabled(a, event, at) then None
    else
      var to := Target(event);
      Some(Recorded(a, event, at).(state := to, history := a.history + [Transition(TypeOf(event), a.state, to, at)]))
  }

  // ---------- The operations ----------

  function Create(actionId: string, intentId: string, chainId: int): Action {
    Action(actionId, intentId, chainId, AwaitingRisk, None, None, None, None, None, [])
  }

  method CreateWalletGuardedAction(actionId: string, intentId: string, chainId: int) returns (action: Option<Action>)
    ensures action == if WellFormed(Create(actionId, intentId, chainId)) then Some(Create(actionId, intentId, chainId))
                      else None
  {
    if !IsActionId(actionId) || !IsActionId(intentId) || chainId > MAX_SAFE_INTEGER || chainId < 1 {
      return None;
    }
    action := Some(Action(actionId, intentId, chainId, AwaitingRisk, None, None, None, None, None, []));
  }

  method RequireState(action: Action, allowed: seq<State>) returns (ok: bool)
    ensures ok == (action.state in allowed)
  {
    ok := action.state in allowed;
  }

  /** Works on a copy; None where the source throws. */
  method TransitionWalletGuardedAction(action: Action, event: Event, at: int) returns (result: Option<Action>)
    ensures result == Next(action, event, at)
  {
    if !WellFormed(action) || at < 0 || at > MAX_SAFE_INTEGER {
      return None;
    }
    var next := action;
    var from := action.state;
    var to;
    match event {
      case RiskEvaluated(verdict, decisionId) =>
        var ok := RequireState(action, [AwaitingRisk]);
        if !ok || verdict.None? || (decisionId.Some? && |decisionId.value| > 256) {
          return None;
        }
        next := next.(risk := Some(Risk(verdict.value, decisionId, at)));
        to := if verdict.value.Block? then RiskBlocked else RiskCleared;
      case AuthorizationPrepared =>
        var ok := RequireState(action, [RiskCleared]);
        if !ok {
          return None;
        }
        to := Prepared;
      case SignatureRequested =>
        var ok := RequireState(action, [Prepared]);
        if !ok {
          return None;
        }
        to := AwaitingSignature;
      case AuthorizationAccepted(accepted, checkedAt, active) =>
        var ok := RequireState(action, [Prepared, AwaitingSignature]);
        if !ok || accepted.None? || checkedAt.None? {
          return None;
        }
        var authorization := accepted.value;
        if authorization.intentId != action.intentId || authorization.chainId != action.chainId {
          return None;
        }
        if !IsHexText(authorization.account, 40) {
          return None;
        }
        if authorization.expiresAt > MAX_SAFE_INTEGER || authorization.expiresAt < 0 {
          return None;
        }
        next := next.(authorization := Some(Authorization(authorization.authorizationId, Lower(authorization.account),
                                                          authorization.expiresAt, checkedAt.value)));
        to := if active then Authorized else Unknown;
      case SubmissionRecorded(txHash) =>
        var ok := RequireState(action, [Authorized]);
        if !ok || !IsHexText(txHash, 64) {
          return None;
        }
        if action.authorization.None? || action.authorization.value.expiresAt <= at / 1000 {
          return None;
        }
        next := next.(submission := Some(Submission(Lower(txHash), at)));
        to := Submitted;
      case ObservationStarted =>
        var ok := RequireState(action, [Submitted, Unknown]);
        if !ok || action.submission.None? {
          return None;
        }
        to := Observing;
      case ObservationRecorded(status, observedHash, receiptId) =>
        var ok := RequireState(action, [Observing]);
        if !ok || action.submission.None? || status.None? {
          return None;
        }
        if observedHash.Some? && observedHash.value != "" && Lower(observedHash.value) != action.submission.value.txHash {
          return None;
        }
        next := next.(observation := Some(Observation(status.value, receiptId, at)));
        to := match status.value
              case Confirmed => Observed
              case Reverted => Failed
              case Pending => Observing
              case _ => Unknown;
      case VerificationRecorded(verifiedId, valid) =>
        var ok := RequireState(action, [Observed]);
        if !ok || |verifiedId| < 1 || |verifiedId| > 256 {
          return None;
        }
        if action.observation.None? || action.observation.value.receiptId != Some(verifiedId) {
          return None;
        }
        if valid {
          next := next.(verification := Some(Verification(verifiedId, at)));
        }
        to := if valid then Verified else Failed;
      case ActionFailed =>
        var ok := RequireState(action, [AwaitingRisk, RiskCleared, Prepared, AwaitingSignature, Authorized, Submitted,
                                        Observing, Observed]);
        if !ok {
          return None;
        }
        to := Failed;
      case ActionCancelled =>
        var ok := RequireState(action, [AwaitingRisk, RiskCleared, Prepared, AwaitingSignature, Authorized]);
        if !ok {
          return None;
        }
        to := Cancelled;
    }
    next := next.(state := to);
    next := next.(history := next.history + [Transition(TypeOf(event), from, to, at)]);
    result := Some(next);
  }

  datatype Flags = Flags(terminal: bool, maySubmit: bool, mayObserve: bool)

  /** The flags of the summary a wallet shows. */
  function Summary(state: State): Flags {
    match state
    case RiskBlocked => Flags(true, false, false)
    case Verified => Flags(true, false, false)
    case Failed => Flags(true, false, false)
    case Cancelled => Flags(true, false, false)
    case Authorized => Flags(false, true, false)
    case Submitted => Flags(false, false, true)
    case Observing => Flags(false, false, true)
    case Unknown => Flags(false, false, true)
    case _ => Flags(false, false, false)
  }

  // ---------- Runs ----------

  datatype Step = Step(event: Event, at: int)

  /** The record after a whole run, if every step was accepted. */
  function Replay(a: Action, steps: seq<Step>): Option<Action>
    decreases |steps|
  {
    if steps == [] then Some(a)
    else
      match Next(a, steps[0].event, steps[0].at)
      case None => None
      case Some(b) => Replay(b, steps[1..])
  }

  predicate IsObservation(event: EventType) {
    event.ObservationStartedEvent? || event.ObservationRecordedEvent?
  }

  function OtherEvents(history: seq<Transition>): nat {
    if history == [] then 0
    else OtherEvents(history[..|history| - 1]) + if IsObservation(history[|history| - 1].event) then 0 else 1
  }

  function Submissions(history: seq<Transition>): nat {
    if history == [] then 0
    else Submissions(history[..|history| - 1]) + if history[|history| - 1].event.SubmissionEvent? then 1 else 0
  }

  /** How many events other than observations can still happen. */
  function Budget(state: State): nat {
    match state
    case AwaitingRisk => 6
    case RiskCleared => 5
    case Prepared => 4
    case AwaitingSignature => 3
    case Authorized => 2
    case Submitted => 1
    case Observing => 1
    case Observed => 1
    case Unknown => 1
    case _ => 0
  }

  /** Every transition starts where the one before it ended, the first at AwaitingRisk, the last at `state`. */
  ghost predicate ConnectedPath(history: seq<Transition>, state: State) {
    if history == [] then state == AwaitingRisk
    else
      var last := history[|history| - 1];
      last.to == state && AllowedFrom(last.event, last.from) && ConnectedPath(history[..|history| - 1], last.from)
  }

  predicate BeforeSubmission(state: State) {
    state in {AwaitingRisk, RiskBlocked, RiskCleared, Prepared, AwaitingSignature, Authorized, Cancelled}
  }

  predicate AfterSubmission(state: State) {
    state in {Submitted, Observing, Observed, Verified}
  }

  predicate Cleared(a: Action) {
    a.risk.Some? && !a.risk.value.verdict.Block?
  }

  /** A submission rests on a risk that does not block and an authorization unexpired when it was recorded. */
  predicate SubmissionJustified(a: Action) {
    && a.submission.Some? && Cleared(a) && a.authorization.Some?
    && a.submission.value.submittedAt / 1000 < a.authorization.value.expiresAt
  }

  /** The evidence each state stands for is present, and nothing is present too early. */
  predicate Documented(a: Action) {
    && WellFormed(a)
    && (a.state.AwaitingRisk? ==> a.risk.None?)
    && (a.state.RiskBlocked? ==> a.risk.Some? && a.risk.value.verdict.Block?)
    && (a.state in {RiskCleared, Prepared, AwaitingSignature, Authorized, Unknown} ==> Cleared(a))
    && (a.state in {AwaitingRisk, RiskCleared, Prepared, AwaitingSignature} ==> a.authorization.None?)
    && (a.state in {Authorized, Unknown} ==> a.authorization.Some?)
    && (a.authorization.Some? ==> a.authorization.value.expiresAt >= 0)
    && (BeforeSubmission(a.state) ==> a.submission.None?)
    && (AfterSubmission(a.state) ==> a.submission.Some?)
    && (a.submission.Some? ==> SubmissionJustified(a))
    && (a.state in {Observed, Verified} ==> a.observation.Some? && a.observation.value.status.Confirmed?)
    && (a.state.Verified? <==> a.verification.Some?)
    && (a.verification.Some? ==> a.observation.value.receiptId == Some(a.verification.value.receiptId))
  }

  /** The history accounts for the state, and bounds what can still happen. */
  ghost predicate Accounted(a: Action) {
    && ConnectedPath(a.history, a.state)
    && OtherEvents(a.history) + Budget(a.state) <= 6
    && Submissions(a.history) == (if a.submission.Some? then 1 else 0)
  }

  ghost predicate Sound(a: Action) {
    Documented(a) && Accounted(a)
  }

  lemma HistorySnoc(history: seq<Transition>, t: Transition)
    ensures OtherEvents(history + [t]) == OtherEvents(history) + if IsObservation(t.event) then 0 else 1
    ensures Submissions(history + [t]) == Submissions(history) + if t.event.SubmissionEvent? then 1 else 0
    ensures ConnectedPath(history + [t], t.to) <==> AllowedFrom(t.event, t.from) && ConnectedPath(history, t.from)
  {
    var longer := history + [t];
    assert longer[..|longer| - 1] == history && longer[|longer| - 1] == t;
  }

  lemma StepKeepsAccounts(a: Action, event: Event, at: int)
    requires Sound(a) && Enabled(a, event, at)
    ensures Accounted(Next(a, event, at).value)
  {
    HistorySnoc(a.history, Transition(TypeOf(event), a.state, Target(event), at));
  }

  lemma StepKeepsSound(a: Action, event: Event, at: int)
    requires Sound(a) && Next(a, event, at).Some?
    ensures Sound(Next(a, event, at).value)
  {
    StepKeepsAccounts(a, event, at);
  }

  lemma {:induction false} RunKeepsSound(a: Action, steps: seq<Step>)
    requires Sound(a) && Replay(a, steps).Some?
    ensures Sound(Replay(a, steps).value)
    decreases |steps|
  {
    if steps != [] {
      StepKeepsSound(a, steps[0].event, steps[0].at);
      RunKeepsSound(Next(a, steps[0].event, steps[0].at).value, steps[1..]);
    }
  }

  /** The action is the result of some run from its creation. */
  ghost predicate RunFromCreation(start: Action, steps: seq<Step>, a: Action) {
    && WellFormed(start) && start == Create(start.actionId, start.intentId, start.chainId)
    && Replay(start, steps) == Some(a)
  }

  /** Safety over every run from creation. */
  lemma RunsAreSafe(start: Action, steps: seq<Step>, a: Action)
    requires RunFromCreation(start, steps, a)
    ensures Sound(a)
    ensures Submissions(a.history) <= 1
    ensures a.submission.Some? ==>
              && a.risk.Some? && a.risk.value.verdict != Block && a.authorization.Some?
              && a.submission.value.submittedAt / 1000 < a.authorization.value.expiresAt
    ensures a.state in {Authorized, Cancelled} ==> a.submission.None?
    ensures a.state.Verified? ==>
              && a.submission.Some? && a.observation.Some? && a.observation.value.status.Confirmed?
              && a.verification.Some? && a.observation.value.receiptId == Some(a.verification.value.receiptId)
  {
    RunKeepsSound(start, steps);
  }

  /** The history names the events of the run, at their times. */
  ghost predicate HistoryTells(history: seq<Transition>, steps: seq<Step>) {
    && |history| == |steps|
    && forall i :: 0 <= i < |steps| ==> history[i].event == TypeOf(steps[i].event) && history[i].at == steps[i].at
  }

  lemma DropOne<T>(s: seq<T>, i: nat)
    requires i < |s|
    ensures s[i..] == [s[i]] + s[i + 1..]
  {
  }

  lemma {:induction false} RunIsRecorded(a: Action, steps: seq<Step>)
    requires Replay(a, steps).Some?
    ensures |a.history| <= |Replay(a, steps).value.history|
    ensures Replay(a, steps).value.history[..|a.history|] == a.history
    ensures HistoryTells(Replay(a, steps).value.history[|a.history|..], steps)
    decreases |steps|
  {
    var first := |a.history|;
    if steps != [] {
      var b := Next(a, steps[0].event, steps[0].at).value;
      RunIsRecorded(b, steps[1..]);
      var history := Replay(b, steps[1..]).value.history;
      assert history[..first + 1] == a.history + [b.history[first]];
      assert history[..first] == history[..first + 1][..first];
      DropOne(history, first);
    }
  }

  /** Progress over every run: a connected history, and at most six events that are not observations. */
  lemma RunsAreBounded(start: Action, steps: seq<Step>, a: Action)
    requires RunFromCreation(start, steps, a)
    ensures ConnectedPath(a.history, a.state)
    ensures OtherEvents(a.history) <= 6 - Budget(a.state)
    ensures HistoryTells(a.history, steps)
  {
    RunKeepsSound(start, steps);
    RunIsRecorded(start, steps);
  }

  // ---------- Evidence is written once ----------

  /** Once set, it is never replaced. */
  predicate Kept<T(==)>(before: Option<T>, after: Option<T>) {
    before.Some? ==> after == before
  }

  lemma StepKeepsEvidence(a: Action, event: Event, at: int)
    requires Sound(a) && Next(a, event, at).Some?
    ensures var b := Next(a, event, at).value;
      && Kept(a.risk, b.risk) && Kept(a.authorization, b.authorization)
      && Kept(a.submission, b.submission) && Kept(a.verification, b.verification)
  {
  }

  /** Only the observation can change along a run; after a submission no later state precedes one. */
  lemma {:induction false} EvidenceIsFinal(a: Action, steps: seq<Step>)
    requires Sound(a) && Replay(a, steps).Some?
    ensures var b := Replay(a, steps).value;
      && Kept(a.risk, b.risk) && Kept(a.authorization, b.authorization)
      && Kept(a.submission, b.submission) && Kept(a.verification, b.verification)
    ensures a.submission.Some? ==>
              !BeforeSubmission(Replay(a, steps).value.state) && !Summary(Replay(a, steps).value.state).maySubmit
    decreases |steps|
  {
    if steps != [] {
      var b := Next(a, steps[0].event, steps[0].at).value;
      StepKeepsSound(a, steps[0].event, steps[0].at);
      StepKeepsEvidence(a, steps[0].event, steps[0].at);
      EvidenceIsFinal(b, steps[1..]);
    }
  }

  // ---------- What the summary flags promise ----------

  ghost predicate Stuck(a: Action) {
    forall event, at :: Next(a, event, at).None?
  }

  /** No event at all is accepted exactly in the states flagged terminal, and in one state that is not:
      UNKNOWN without a submission, whose summary still offers observation. */
  lemma StuckExactly(a: Action)
    requires Sound(a)
    ensures Stuck(a) <==> Summary(a.state).terminal || (a.state.Unknown? && a.submission.None?)
  {
    if !Summary(a.state).terminal && !(a.state.Unknown? && a.submission.None?) {
      var event := if a.state.Unknown? then ObservationStarted else ActionFailed;
      assert Next(a, event, 0).Some?;
    }
  }

  function SampleHex(n: nat): (s: string)
    ensures IsHexText(s, n)
  {
    "0x" + seq(n, _ => '0')
  }

  /** An authorization for this very action. */
  function Offer(a: Action, expiresAt: int): AcceptedAuthorization {
    AcceptedAuthorization("authorization", a.intentId, a.chainId, SampleHex(40), expiresAt)
  }

  lemma ReplayStep(a: Action, event: Event, at: int, rest: seq<Step>)
    requires Next(a, event, at).Some?
    ensures Replay(a, [Step(event, at)] + rest) == Replay(Next(a, event, at).value, rest)
  {
    assert ([Step(event, at)] + rest)[1..] == rest;
  }

  /** That state is reached by accepting an authorization whose window is not active. */
  lemma UnknownCanBeStuck(start: Action) returns (steps: seq<Step>, a: Action)
    requires WellFormed(start) && start == Create(start.actionId, start.intentId, start.chainId)
    ensures RunFromCreation(start, steps, a)
    ensures Stuck(a) && a.state.Unknown? && Summary(a.state).mayObserve && !Summary(a.state).terminal
  {
    var clear := RiskEvaluated(Some(Allow), None);
    var inactive := AuthorizationAccepted(Some(Offer(start, 0)), Some(0), false);
    var cleared := Next(start, clear, 0).value;
    var prepared := Next(cleared, AuthorizationPrepared, 0).value;
    a := Next(prepared, inactive, 0).value;
    ReplayStep(prepared, inactive, 0, []);
    ReplayStep(cleared, AuthorizationPrepared, 0, [Step(inactive, 0)]);
    ReplayStep(start, clear, 0, [Step(AuthorizationPrepared, 0)] + [Step(inactive, 0)]);
    steps := [Step(clear, 0)] + ([Step(AuthorizationPrepared, 0)] + [Step(inactive, 0)]);
    assert [Step(inactive, 0)] + [] == [Step(inactive, 0)];
  }

  /** `maySubmit` is the state from which a submission can be recorded, until the authorization expires. */
  lemma MaySubmitExactly(a: Action, at: int)
    requires Sound(a) && IsTime(at)
    ensures (exists txHash :: Next(a, SubmissionRecorded(txHash), at).Some?)
       <==> Summary(a.state).maySubmit && at / 1000 < a.authorization.value.expiresAt
  {
    if Summary(a.state).maySubmit && at / 1000 < a.authorization.value.expiresAt {
      assert Next(a, SubmissionRecorded(SampleHex(64)), at).Some?;
    }
  }

  /** `mayObserve` needs a submission too; that is only missing in the stuck state. */
  lemma MayObserveExactly(a: Action, at: int)
    requires Sound(a) && IsTime(at)
    ensures (exists event :: IsObservation(TypeOf(event)) && Next(a, event, at).Some?)
       <==> Summary(a.state).mayObserve && a.submission.Some?
  {
    if Summary(a.state).mayObserve && a.submission.Some? {
      var event := if a.state.Observing? then ObservationRecorded(Some(Pending), None, None) else ObservationStarted;
      assert IsObservation(TypeOf(event)) && Next(a, event, at).Some?;
    }
  }

  // ---------- Which records can still become verified ----------

  /** No continuation verifies these: ended some other way, inactive when accepted, accepted with an
      expiry no time precedes, or confirmed without a receipt id that verification could name. */
  predicate Hopeless(a: Action) {
    match a.state
    case RiskBlocked => true
    case Failed => true
    case Cancelled => true
    case Unknown => a.submission.None?
    case Authorized => a.authorization.Some? && a.authorization.value.expiresAt == 0
    case Observed =>
      a.observation.Some? && (a.observation.value.receiptId.Some? ==>
                                !UsableReceiptId(a.observation.value.receiptId.value))
    case _ => false
  }

  /** The next event of a run that ends verified. */
  function Advance(a: Action): Event
    requires Documented(a)
  {
    match a.state
    case AwaitingRisk => RiskEvaluated(Some(Allow), None)
    case RiskCleared => AuthorizationPrepared
    case Prepared => SignatureRequested
    case AwaitingSignature => AuthorizationAccepted(Some(Offer(a, 1)), Some(0), true)
    case Authorized => SubmissionRecorded(SampleHex(64))
    case Observing => ObservationRecorded(Some(Confirmed), None, Some("receipt"))
    case Observed => VerificationRecorded((match a.observation.value.receiptId case Some(id) => id case None => ""), true)
    case _ => ObservationStarted
  }

  function Distance(state: State): nat {
    match state
    case AwaitingRisk => 8
    case RiskCleared => 7
    case Prepared => 6
    case AwaitingSignature => 5
    case Authorized => 4
    case Submitted => 3
    case Unknown => 3
    case Observing => 2
    case Observed => 1
    case _ => 0
  }

  lemma AdvanceIsAccepted(a: Action)
    requires Sound(a) && !Hopeless(a) && !a.state.Verified?
    ensures Next(a, Advance(a), 0).Some?
    ensures var b := Next(a, Advance(a), 0).value;
      !Hopeless(b) && Distance(b.state) < Distance(a.state) && (Distance(a.state) > 2 ==> Distance(b.state) >= 2)
  {
  }

  lemma Finish(a: Action) returns (steps: seq<Step>)
    requires Sound(a) && !Hopeless(a)
    ensures Replay(a, steps).Some? && Replay(a, steps).value.state.Verified?
    decreases Distance(a.state)
  {
    if a.state.Verified? {
      steps := [];
    } else {
      AdvanceIsAccepted(a);
      var b := Next(a, Advance(a), 0).value;
      StepKeepsSound(a, Advance(a), 0);
      var rest := Finish(b);
      ReplayStep(a, Advance(a), 0, rest);
      steps := [Step(Advance(a), 0)] + rest;
    }
  }

  /** A confirmed observation that names no receipt a verification could name. */
  predicate Receiptless(a: Action) {
    && a.state.Observed? && a.observation.Some? && a.observation.value.status.Confirmed?
    && (a.observation.value.receiptId.Some? ==> !UsableReceiptId(a.observation.value.receiptId.value))
  }

  lemma ObserveWithout(a: Action, receiptId: Option<string>)
    requires Sound(a) && a.state.Observing?
    requires receiptId.Some? ==> !UsableReceiptId(receiptId.value)
    ensures Next(a, ObservationRecorded(Some(Confirmed), None, receiptId), 0).Some?
    ensures Receiptless(Next(a, ObservationRecorded(Some(Confirmed), None, receiptId), 0).value)
  {
  }

  /** From every record that could still become verified and is not observed yet, a run leads to a confirmed
      observation with any unusable receipt id. */
  lemma ReachReceiptless(a: Action, receiptId: Option<string>) returns (steps: seq<Step>, b: Action)
    requires Sound(a) && !Hopeless(a) && Distance(a.state) >= 2
    requires receiptId.Some? ==> !UsableReceiptId(receiptId.value)
    ensures Replay(a, steps) == Some(b) && Receiptless(b)
    decreases Distance(a.state)
  {
    if a.state.Observing? {
      var event := ObservationRecorded(Some(Confirmed), None, receiptId);
      ObserveWithout(a, receiptId);
      b := Next(a, event, 0).value;
      ReplayStep(a, event, 0, []);
      steps := [Step(event, 0)] + [];
    } else {
      AdvanceIsAccepted(a);
      StepKeepsSound(a, Advance(a), 0);
      var rest;
      rest, b := ReachReceiptless(Next(a, Advance(a), 0).value, receiptId);
      ReplayStep(a, Advance(a), 0, rest);
      steps := [Step(Advance(a), 0)] + rest;
    }
  }

  lemma {:induction false} HopelessStays(a: Action, steps: seq<Step>)
    requires Sound(a) && Hopeless(a) && Replay(a, steps).Some?
    ensures Hopeless(Replay(a, steps).value)
    decreases |steps|
  {
    if steps != [] {
      StepKeepsSound(a, steps[0].event, steps[0].at);
      HopelessStays(Next(a, steps[0].event, steps[0].at).value, steps[1..]);
    }
  }

  ghost predicate Verifiable(a: Action) {
    exists steps :: Replay(a, steps).Some? && Replay(a, steps).value.state.Verified?
  }

  /** A record can still end verified exactly when it is not hopeless. */
  lemma VerifiableExactly(a: Action)
    requires Sound(a)
    ensures Verifiable(a) <==> !Hopeless(a)
  {
    if Hopeless(a) {
      forall steps | Replay(a, steps).Some? ensures !Replay(a, steps).value.state.Verified? {
        HopelessStays(a, steps);
      }
    } else {
      var steps := Finish(a);
    }
  }

  /** A run from creation can end in a confirmed observation that no continuation verifies. */
  lemma ConfirmedCanBeLost(start: Action, receiptId: Option<string>) returns (steps: seq<Step>, a: Action)
    requires WellFormed(start) && start == Create(start.actionId, start.intentId, start.chainId)
    requires receiptId.Some? ==> !UsableReceiptId(receiptId.value)
    ensures RunFromCreation(start, steps, a)
    ensures Receiptless(a) && !Verifiable(a)
  {
    steps, a := ReachReceiptless(start, receiptId);
    RunKeepsSound(start, steps);
    VerifiableExactly(a);
  }
}
