/** Human decisions on review findings, and the endpoint that turns a clear review into an approval task. */
module ReviewFindings {
  import opened Outcomes
  import opened Text
  import opened DocumentReview

  datatype Severity = CRITICAL | HIGH | MEDIUM | LOW | INFORMATION

  datatype FindingStatus =
    | OPEN | IN_PROGRESS | DISMISSED | RESOLVED | ESCALATED | INFORMATION_REQUESTED | EXCEPTION_REQUESTED

  datatype Finding = Finding(
    severity: Severity, title: string, suggestedRedline: string,
    status: FindingStatus, dismissalReason: string, resolvedBy: Option<int>, resolvedAt: Option<int>,
    assessment: string, redlineDraft: string, comment: string, reviewer: Option<int>)

  datatype Action =
    | Accept | Dismiss(reason: string) | EditAssessment(text: string)
    | AcceptRedline(text: string) | EditRedline(text: string)
    | Assign(reviewer: Option<int>) | Comment(text: string) | Escalate | RequestInformation | CreateException
    | Resolve(user: int, at: int) | Unsupported

  datatype Refusal =
    | UnsupportedAction | ReasonRequired | InvalidReason | ReviewerNotMember | NoSuchFinding | NotReady | Unresolved

  const REASONS: set<string> := {
    "ACCEPTED_BUSINESS_RISK", "FALSE_POSITIVE", "COVERED_ELSEWHERE", "APPROVED_EXCEPTION", "NOT_APPLICABLE", "OTHER"}

  predicate Grave(s: Severity) {
    s == CRITICAL || s == HIGH
  }

  /** The finding after an action, or why it was refused. Assign carries an active member or none. */
  function Decide(f: Finding, a: Action): Result<Finding, Refusal> {
    match a
    case Accept => Ok(f.(status := IN_PROGRESS))
    case Dismiss(reason) =>
      var given := Upper(reason);
      if Grave(f.severity) && given == "" then Error(ReasonRequired)
      else if given != "" && given !in REASONS then Error(InvalidReason)
      else Ok(f.(status := DISMISSED, dismissalReason := given))
    case EditAssessment(text) => Ok(f.(assessment := Strip(text)))
    case AcceptRedline(text) =>
      Ok(f.(status := IN_PROGRESS, redlineDraft := Strip(if text != "" then text else f.suggestedRedline)))
    case EditRedline(text) => Ok(f.(redlineDraft := Strip(text)))
    case Assign(reviewer) => if reviewer.None? then Error(ReviewerNotMember) else Ok(f.(reviewer := reviewer))
    case Comment(text) => Ok(f.(comment := Strip(text)))
    case Escalate => Ok(f.(status := ESCALATED))
    case RequestInformation => Ok(f.(status := INFORMATION_REQUESTED))
    case CreateException => Ok(f.(status := EXCEPTION_REQUESTED))
    case Resolve(user, at) => Ok(f.(status := RESOLVED, resolvedBy := Some(user), resolvedAt := Some(at)))
    case Unsupported => Error(UnsupportedAction)
  }

  const CONFIRMATION := "Human confirmation: AI review outcome"

  function ExceptionStep(f: Finding): string {
    "Exception decision: " + f.title[..if |f.title| < 100 then |f.title| else 100]
  }

  // ---- one contract under review ----

  /** `approvals` are the steps of the contract's approval requests, in order of creation. */
  datatype Desk = Desk(run: Option<RunState>, contract: Contract, findings: seq<Finding>, approvals: seq<string>)

  datatype Event = Act(i: nat, action: Action) | Confirm

  function GetOrCreate(approvals: seq<string>, step: string): seq<string> {
    if step in approvals then approvals else approvals + [step]
  }

  predicate Closed(s: FindingStatus) {
    s !in {OPEN, IN_PROGRESS, ESCALATED, INFORMATION_REQUESTED, EXCEPTION_REQUESTED}
  }

  function Handle(d: Desk, e: Event): Result<Desk, Refusal> {
    match e
    case Act(i, action) =>
      if i >= |d.findings| then Error(NoSuchFinding)
      else match Decide(d.findings[i], action) {
        case Error(why) => Error(why)
        case Ok(f) =>
          var approvals := if action.CreateException? then GetOrCreate(d.approvals, ExceptionStep(f)) else d.approvals;
          Ok(d.(findings := d.findings[i := f], approvals := approvals))
      }
    case Confirm =>
      if !ReviewIsReady(d.run, d.contract) then Error(NotReady)
      else if exists i :: 0 <= i < |d.findings| && !Closed(d.findings[i].status) then Error(Unresolved)
      else Ok(d.(approvals := GetOrCreate(d.approvals, CONFIRMATION)))
  }

  // ---- the code, over mutable state ----

  class ReviewDesk {
    var run: Option<RunState>
    var contract: Contract
    var findings: seq<Finding>
    var approvals: seq<string>

    ghost function Now(): Desk
      reads this
    {
      Desk(run, contract, findings, approvals)
    }

    method GetOrCreateApproval(step: string)
      modifies this`approvals
      ensures approvals == GetOrCreate(old(approvals), step)
    {
      if step !in approvals { approvals := approvals + [step]; }
    }

    method ActOn(i: nat, action: Action) returns (refusal: Option<Refusal>)
      modifies this
      ensures match Handle(old(Now()), Act(i, action))
              case Ok(d) => refusal == None && Now() == d
              case Error(why) => refusal == Some(why) && Now() == old(Now())
    {
      if i >= |findings| { return Some(NoSuchFinding); }
      var f := findings[i];
      match action {
        case Accept => f := f.(status := IN_PROGRESS);
        case Dismiss(text) =>
          var reason := Upper(text);
          if Grave(f.severity) && reason == "" { return Some(ReasonRequired); }
          if reason != "" && reason !in REASONS { return Some(InvalidReason); }
          f := f.(status := DISMISSED, dismissalReason := reason);
        case EditAssessment(text) => f := f.(assessment := Strip(text));
        case AcceptRedline(text) =>
          f := f.(status := IN_PROGRESS, redlineDraft := Strip(if text != "" then text else f.suggestedRedline));
        case EditRedline(text) => f := f.(redlineDraft := Strip(text));
        case Assign(reviewer) =>
          if reviewer.None? { return Some(ReviewerNotMember); }
          f := f.(reviewer := reviewer);
        case Comment(text) => f := f.(comment := Strip(text));
        case Escalate => f := f.(status := ESCALATED);
        case RequestInformation => f := f.(status := INFORMATION_REQUESTED);
        case CreateException =>
          f := f.(status := EXCEPTION_REQUESTED);
          GetOrCreateApproval(ExceptionStep(f));
        case Resolve(user, at) => f := f.(status := RESOLVED, resolvedBy := Some(user), resolvedAt := Some(at));
        case Unsupported => return Some(UnsupportedAction);
      }
      findings := findings[i := f];
      return None;
    }

    method ConfirmReview() returns (refusal: Option<Refusal>)
      modifies this`approvals
      ensures match Handle(old(Now()), Confirm)
              case Ok(d) => refusal == None && Now() == d
              case Error(why) => refusal == Some(why) && Now() == old(Now())
    {
      if !ReviewIsReady(run, contract) { return Some(NotReady); }
      for i := 0 to |findings|
        invariant forall j :: 0 <= j < i ==> Closed(findings[j].status)
      {
        if !Closed(findings[i].status) { return Some(Unresolved); }
      }
      GetOrCreateApproval(CONFIRMATION);
      return None;
    }
  }

  // ---- the actions, one by one ----

  /** The reasons a dismissal is refused: none given for a grave finding, or one that is not listed. */
  ghost predicate Dismissible(s: Severity, reason: string) {
    var given := Upper(reason);
    if given == "" then s in {MEDIUM, LOW, INFORMATION}
    else given in {"ACCEPTED_BUSINESS_RISK", "FALSE_POSITIVE", "COVERED_ELSEWHERE", "APPROVED_EXCEPTION",
                   "NOT_APPLICABLE", "OTHER"}
  }

  /** Which actions are refused, and why. */
  lemma {:induction false} RefusedExactly(f: Finding, a: Action)
    ensures Decide(f, a).Error? <==> a == Unsupported || a == Assign(None)
                                     || (a.Dismiss? && !Dismissible(f.severity, a.reason))
    ensures Decide(f, a).Error? ==>
              Decide(f, a).error == if a.Unsupported? then UnsupportedAction
                                    else if a.Assign? then ReviewerNotMember
                                    else if Upper(a.reason) == "" then ReasonRequired
                                    else InvalidReason
  {
    assert "" !in REASONS;
  }

  /** What an accepted action makes of the finding, field by field. */
  lemma {:induction false} ActionsExactly(f: Finding, a: Action)
    requires Decide(f, a).Ok?
    ensures var g := Decide(f, a).value;
            && g.severity == f.severity && g.title == f.title && g.suggestedRedline == f.suggestedRedline
            && g.status == (match a
                            case Accept | AcceptRedline(_) => IN_PROGRESS
                            case Dismiss(_) => DISMISSED
                            case Escalate => ESCALATED
                            case RequestInformation => INFORMATION_REQUESTED
                            case CreateException => EXCEPTION_REQUESTED
                            case Resolve(_, _) => RESOLVED
                            case _ => f.status)
            && g.dismissalReason == (if a.Dismiss? then Upper(a.reason) else f.dismissalReason)
            && g.resolvedBy == (if a.Resolve? then Some(a.user) else f.resolvedBy)
            && g.resolvedAt == (if a.Resolve? then Some(a.at) else f.resolvedAt)
            && g.assessment == (if a.EditAssessment? then Strip(a.text) else f.assessment)
            && g.comment == (if a.Comment? then Strip(a.text) else f.comment)
            && g.reviewer == (if a.Assign? then a.reviewer else f.reviewer)
            && g.redlineDraft == (if a.EditRedline? || (a.AcceptRedline? && a.text != "") then Strip(a.text)
                                  else if a.AcceptRedline? then Strip(f.suggestedRedline)
                                  else f.redlineDraft)
  {
  }

  /** An action changes its own finding alone; a requested exception has its approval step, new if it is missing. */
  lemma {:induction false} ActsExactly(d: Desk, i: nat, a: Action)
    ensures Handle(d, Act(i, a)).Ok? <==> i < |d.findings| && Decide(d.findings[i], a).Ok?
    ensures i >= |d.findings| ==> Handle(d, Act(i, a)) == Error(NoSuchFinding)
    ensures i < |d.findings| && Decide(d.findings[i], a).Error? ==>
              Handle(d, Act(i, a)) == Error(Decide(d.findings[i], a).error)
    ensures Handle(d, Act(i, a)).Ok? ==>
              var after, title := Handle(d, Act(i, a)).value, d.findings[i].title;
              var step := "Exception decision: " + if |title| <= 100 then title else title[..100];
              && after.run == d.run && after.contract == d.contract && |after.findings| == |d.findings|
              && after.findings[i] == Decide(d.findings[i], a).value
              && (forall j :: 0 <= j < |d.findings| && j != i ==> after.findings[j] == d.findings[j])
              && (if a.CreateException? && step !in d.approvals then after.approvals == d.approvals + [step]
                  else after.approvals == d.approvals)
  {
    if i < |d.findings| {
      var title := d.findings[i].title;
      assert |title| <= 100 ==> title[..|title|] == title;
      if Decide(d.findings[i], a).Ok? { ActionsExactly(d.findings[i], a); }
    }
  }

  // ---- runs ----

  /** A refused event changes nothing. */
  function Next(d: Desk, e: Event): Desk {
    match Handle(d, e) case Ok(after) => after case Error(_) => d
  }

  function After(d: Desk, es: seq<Event>, n: nat): Desk
    requires n <= |es|
  {
    if n == 0 then d else Next(After(d, es, n - 1), es[n - 1])
  }

  /** The decision on a finding can be accounted for. */
  predicate Accountable(f: Finding) {
    && (f.status == DISMISSED ==> f.dismissalReason in REASONS || (f.dismissalReason == "" && !Grave(f.severity)))
    && (f.status == RESOLVED ==> f.resolvedBy.Some? && f.resolvedAt.Some?)
  }

  lemma {:induction false} DecisionsAreAccountable(f: Finding, a: Action)
    requires Accountable(f) && Decide(f, a).Ok?
    ensures Accountable(Decide(f, a).value) && Decide(f, a).value.severity == f.severity
  {
  }

  lemma {:induction false} FindingsStayAccountable(d: Desk, es: seq<Event>, n: nat)
    requires n <= |es| && forall i :: 0 <= i < |d.findings| ==> Accountable(d.findings[i])
    ensures var after := After(d, es, n);
            && |after.findings| == |d.findings| && after.run == d.run && after.contract == d.contract
            && forall i :: 0 <= i < |d.findings| ==>
                 Accountable(after.findings[i]) && after.findings[i].severity == d.findings[i].severity
  {
    if n == 0 {
    } else {
      FindingsStayAccountable(d, es, n - 1);
      var before := After(d, es, n - 1);
      match es[n - 1]
      case Act(i, action) =>
        if i < |before.findings| && Decide(before.findings[i], action).Ok? {
          DecisionsAreAccountable(before.findings[i], action);
        }
      case Confirm =>
    }
  }

  /** In every run that starts with open findings: a confirmation goes through exactly if the review is ready
      and every finding has been dismissed, with a listed reason if it is Critical or High,
      or resolved by someone at some time. */
  lemma {:induction false} ConfirmationMeansDecided(d: Desk, es: seq<Event>, n: nat)
    requires n < |es| && es[n] == Confirm
    requires forall i :: 0 <= i < |d.findings| ==> d.findings[i].status == OPEN
    ensures var now := After(d, es, n);
            Handle(now, es[n]).Ok?
            <==> && ReviewIsReady(d.run, d.contract)
                 && forall i :: 0 <= i < |now.findings| ==>
                      var f := now.findings[i];
                      || (f.status == DISMISSED && (Grave(f.severity) ==> f.dismissalReason in REASONS)
                          && (f.dismissalReason != "" ==> f.dismissalReason in REASONS))
                      || (f.status == RESOLVED && f.resolvedBy.Some? && f.resolvedAt.Some?)
  {
    FindingsStayAccountable(d, es, n);
    assert "" !in REASONS;
  }

  lemma {:induction false} StepKeepsApprovals(d: Desk, e: Event)
    ensures var after := Next(d, e).approvals;
            d.approvals <= after && (NoDup(d.approvals) ==> NoDup(after))
            && (e == Confirm && Handle(d, e).Ok? ==> CONFIRMATION in after)
  {
  }

  /** However often it is asked for, each approval step exists at most once, and none is ever lost. */
  lemma {:induction false} ApprovalsAreUnique(d: Desk, es: seq<Event>, m: nat, n: nat)
    requires m <= n <= |es| && NoDup(After(d, es, m).approvals)
    ensures NoDup(After(d, es, n).approvals) && After(d, es, m).approvals <= After(d, es, n).approvals
    decreases n
  {
    if m < n {
      ApprovalsAreUnique(d, es, m, n - 1);
      StepKeepsApprovals(After(d, es, n - 1), es[n - 1]);
    }
  }

  lemma {:induction false} OnlyOnce(asked: seq<string>, approvals: seq<string>, step: string)
    requires step in asked && asked <= approvals && NoDup(approvals)
    ensures exists i :: 0 <= i < |approvals| && approvals[i] == step
                        && forall j :: 0 <= j < |approvals| && j != i ==> approvals[j] != step
  {
    var i :| 0 <= i < |asked| && asked[i] == step;
    assert approvals[i] == step;
  }

  lemma {:induction false} ConfirmationAsked(d: Desk, es: seq<Event>, m: nat)
    requires m < |es| && NoDup(d.approvals) && es[m] == Confirm && Handle(After(d, es, m), Confirm).Ok?
    ensures var asked := After(d, es, m + 1).approvals;
            NoDup(asked) && CONFIRMATION in asked
  {
    ApprovalsAreUnique(d, es, 0, m);
    StepKeepsApprovals(After(d, es, m), es[m]);
  }

  /** A confirmation that went through has its approval step ever after, exactly once. */
  lemma {:induction false} ConfirmationStays(d: Desk, es: seq<Event>, m: nat, n: nat)
    requires m < n <= |es| && NoDup(d.approvals)
    requires es[m] == Confirm && Handle(After(d, es, m), es[m]).Ok?
    ensures var approvals := After(d, es, n).approvals;
            exists i :: 0 <= i < |approvals| && approvals[i] == CONFIRMATION
                        && forall j :: 0 <= j < |approvals| && j != i ==> approvals[j] != CONFIRMATION
  {
    ConfirmationAsked(d, es, m);
    ApprovalsAreUnique(d, es, m + 1, n);
    OnlyOnce(After(d, es, m + 1).approvals, After(d, es, n).approvals, CONFIRMATION);
  }

  // ---- when a confirmation goes through ----

  predicate Reopens(a: Action) {
    a.Accept? || a.AcceptRedline? || a.Escalate? || a.RequestInformation? || a.CreateException?
  }

  /** Event m resolves finding i or dismisses it in due form. */
  ghost predicate ClosedAt(d: Desk, es: seq<Event>, m: nat, i: nat)
    requires m < |es| && i < |d.findings|
  {
    es[m].Act? && es[m].i == i
    && (es[m].action.Resolve? || (es[m].action.Dismiss? && Dismissible(d.findings[i].severity, es[m].action.reason)))
  }

  ghost predicate ResolvedAt(es: seq<Event>, m: nat, i: nat)
    requires m < |es|
  {
    es[m].Act? && es[m].i == i && es[m].action.Resolve?
  }

  ghost predicate ResolvedForGood(es: seq<Event>, n: nat, i: nat)
    requires n <= |es|
  {
    exists m :: 0 <= m < n && ResolvedAt(es, m, i) && NotReopened(es, m + 1, n, i)
  }

  ghost predicate ReopenedAt(es: seq<Event>, m: nat, i: nat)
    requires m < |es|
  {
    es[m].Act? && es[m].i == i && Reopens(es[m].action)
  }

  ghost predicate NotReopened(es: seq<Event>, m: nat, n: nat, i: nat)
    requires m <= n <= |es|
  {
    forall k :: m <= k < n ==> !ReopenedAt(es, k, i)
  }

  /** Finding i was settled, at the start or by event m, and has not been reopened since. */
  ghost predicate Settled(d: Desk, es: seq<Event>, n: nat, i: nat)
    requires n <= |es| && i < |d.findings|
  {
    || (d.findings[i].status in {DISMISSED, RESOLVED} && NotReopened(es, 0, n, i))
    || exists m :: 0 <= m < n && ClosedAt(d, es, m, i) && NotReopened(es, m + 1, n, i)
  }

  lemma {:induction false} StepKeepsFindings(d: Desk, e: Event)
    ensures var after := Next(d, e);
            && |after.findings| == |d.findings| && after.run == d.run && after.contract == d.contract
            && forall i :: 0 <= i < |d.findings| ==> after.findings[i].severity == d.findings[i].severity
  {
    if e.Act? {
      ActsExactly(d, e.i, e.action);
      if e.i < |d.findings| && Decide(d.findings[e.i], e.action).Ok? {
        ActionsExactly(d.findings[e.i], e.action);
      }
    }
  }

  lemma {:induction false} FindingsKept(d: Desk, es: seq<Event>, n: nat)
    requires n <= |es|
    ensures var after := After(d, es, n);
            && |after.findings| == |d.findings| && after.run == d.run && after.contract == d.contract
            && forall i :: 0 <= i < |d.findings| ==> after.findings[i].severity == d.findings[i].severity
  {
    if n == 0 {
    } else {
      FindingsKept(d, es, n - 1);
      StepKeepsFindings(After(d, es, n - 1), es[n - 1]);
    }
  }

  lemma {:induction false} StepCloses(d: Desk, e: Event, i: nat)
    requires i < |d.findings|
    ensures |Next(d, e).findings| == |d.findings|
    ensures var f, g := d.findings[i], Next(d, e).findings[i];
            g.status in {DISMISSED, RESOLVED}
            <==> if e.Act? && e.i == i && Reopens(e.action) then false
                 else || f.status in {DISMISSED, RESOLVED}
                      || (e.Act? && e.i == i
                          && (e.action.Resolve? || (e.action.Dismiss? && Dismissible(f.severity, e.action.reason))))
  {
    StepKeepsFindings(d, e);
    if e.Act? && e.i < |d.findings| {
      ActsExactly(d, e.i, e.action);
      RefusedExactly(d.findings[e.i], e.action);
      if Decide(d.findings[e.i], e.action).Ok? { ActionsExactly(d.findings[e.i], e.action); }
    }
  }

  /** A finding is closed exactly if it was settled and has not been reopened since. */
  lemma {:induction false} ClosedMeansSettled(d: Desk, es: seq<Event>, n: nat, i: nat)
    requires n <= |es| && i < |d.findings| == |After(d, es, n).findings|
    ensures After(d, es, n).findings[i].status in {DISMISSED, RESOLVED} <==> Settled(d, es, n, i)
  {
    if n == 0 {
    } else {
      FindingsKept(d, es, n - 1);
      ClosedMeansSettled(d, es, n - 1, i);
      StepCloses(After(d, es, n - 1), es[n - 1], i);
      SettledStep(d, es, n - 1, i);
    }
  }

  lemma {:induction false} SettledStep(d: Desk, es: seq<Event>, n: nat, i: nat)
    requires n < |es| && i < |d.findings|
    ensures Settled(d, es, n + 1, i)
            <==> !ReopenedAt(es, n, i) && (Settled(d, es, n, i) || ClosedAt(d, es, n, i))
  {
    if ReopenedAt(es, n, i) {
    } else {
      assert forall m :: 0 <= m <= n ==> (NotReopened(es, m, n + 1, i) <==> NotReopened(es, m, n, i));
      if ClosedAt(d, es, n, i) { assert NotReopened(es, n + 1, n + 1, i); }
    }
  }

  /** Over every run: a confirmation goes through exactly if the review is ready and every finding has been settled,
      by a resolution or a dismissal in due form, and not been reopened since. */
  lemma {:induction false} ConfirmationAcceptedExactly(d: Desk, es: seq<Event>, n: nat)
    requires n <= |es|
    ensures Handle(After(d, es, n), Confirm).Ok?
            <==> ReviewIsReady(d.run, d.contract) && forall i :: 0 <= i < |d.findings| ==> Settled(d, es, n, i)
    ensures Handle(After(d, es, n), Confirm).Error? ==>
              Handle(After(d, es, n), Confirm).error
              == if ReviewIsReady(d.run, d.contract) then Unresolved else NotReady
  {
    FindingsKept(d, es, n);
    forall i | 0 <= i < |d.findings|
      ensures Closed(After(d, es, n).findings[i].status) <==> Settled(d, es, n, i)
    {
      ClosedMeansSettled(d, es, n, i);
      ClosedAre(After(d, es, n).findings[i].status);
    }
  }

  lemma {:induction false} ClosedAre(s: FindingStatus)
    ensures Closed(s) <==> s in {DISMISSED, RESOLVED}
  {
  }

  lemma {:induction false} ResolvedIsSettled(d: Desk, es: seq<Event>, n: nat, i: nat)
    requires n <= |es| && i < |d.findings| && ResolvedForGood(es, n, i)
    ensures Settled(d, es, n, i)
  {
    var m :| 0 <= m < n && ResolvedAt(es, m, i) && NotReopened(es, m + 1, n, i);
    assert ClosedAt(d, es, m, i);
  }

  /** Whoever resolves all findings of a ready review, in whatever order and whatever else is done before or
      to other findings, can then open the confirmation step. */
  lemma {:induction false} ResolvingOpensConfirmation(d: Desk, es: seq<Event>, n: nat)
    requires n < |es| && es[n] == Confirm && ReviewIsReady(d.run, d.contract)
    requires forall i :: 0 <= i < |d.findings| ==> ResolvedForGood(es, n, i)
    ensures Handle(After(d, es, n), es[n]).Ok?
    ensures CONFIRMATION in After(d, es, n + 1).approvals
    ensures forall i :: 0 <= i < |d.findings| ==> Settled(d, es, n, i)
  {
    forall i | 0 <= i < |d.findings| ensures Settled(d, es, n, i) { ResolvedIsSettled(d, es, n, i); }
    ConfirmationAcceptedExactly(d, es, n);
    StepKeepsApprovals(After(d, es, n), es[n]);
  }
}
