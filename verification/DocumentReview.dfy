/** The AI review of an uploaded agreement and the readiness test of the confirm endpoint. */
module DocumentReview {
  import opened Outcomes
  import opened Text

  /** Texts of fixed wording that the code stores. */
  datatype Notice = CONFIRM_BEFORE_RELYING | CURRENT_GOVERNANCE_CHARTER

  datatype Json = Null | Flag(b: bool) | Str(s: string) | Num(n: int) | Fixed(notice: Notice) {
    predicate Truthy() {
      match this
      case Null => false
      case Flag(b) => b
      case Str(s) => s != ""
      case Num(n) => n != 0
      case Fixed(_) => true
    }
  }

  /** The keys the code uses in a run's metadata and governance facts; any other key is Extra. */
  datatype Key =
    | GOVERNING_LAW | VALUE | CONFIDENCE | TITLE | CONTRACT_TYPE | COUNTERPARTY | START_DATE | END_DATE | POSSIBLE_DPA
    | PAYMENT_TERMS | GOVERNING_LAW_CONFIRMED | VALUE_CONFIRMED | PAYMENT_TERMS_CONFIRMED
    | GOVERNANCE_CHARTER | APPROVED_PLAYBOOK_MATCHED | SELECTED_PLAYBOOK_ID | AI_ANALYSIS_COMPLETED | CITATION_COUNT
    | SELECTED_PLAYBOOK_NAME | PREVIEW_RETRY_REQUESTED_AT | Extra(name: string)
  {
    /** key.endswith('_confirmed') */
    predicate IsConfirmation() {
      this in {GOVERNING_LAW_CONFIRMED, VALUE_CONFIRMED, PAYMENT_TERMS_CONFIRMED}
      || (Extra? && EndsWith(name, "_confirmed"))
    }
  }

  type Dict = map<Key, Json>

  function Get(d: Dict, key: Key): Json {
    if key in d then d[key] else Null
  }

  datatype RunStatus =
    | UPLOADED | EXTRACTING | CLASSIFICATION_REQUIRED | PLAYBOOK_REQUIRED | AI_REVIEW_IN_PROGRESS
    | AI_REVIEW_INCOMPLETE | READY | HUMAN_REVIEW_IN_PROGRESS | REVIEW_COMPLETED
  {
    predicate Resting() {
      this in {CLASSIFICATION_REQUIRED, PLAYBOOK_REQUIRED, AI_REVIEW_INCOMPLETE, READY}
    }
  }

  datatype Step = Uploaded | Extracting | Classifying | MatchingPlaybook | AiReviewing | ReviewReady

  datatype Label = CounterpartyLabel | ContractTypeLabel | GoverningLawLabel | ContractValueLabel | PaymentTermsLabel

  /** The columns of a review run that the pipeline writes; `completed` says whether completed_at is set. */
  datatype RunState = RunState(status: RunStatus, step: Step, metadata: Dict, governance: Dict, model: string,
      completed: bool)

  datatype Contract = Contract(counterparty: string, contractType: string, governingLaw: string, value: Option<real>)

  datatype Document = Document(contract: Option<Contract>, text: string)

  /** What the extraction service finds in a text. */
  datatype Extraction = Extraction(
    governingLaw: string, value: string, title: string, contractType: string, counterparty: string,
    startDate: string, endDate: string, possibleDpa: bool, payment: string)

  /** How the call to the AI provider ends. */
  datatype Provider = Unavailable | InvalidResponse | Crashed | Reviewed(flags: nat, spans: nat, model: string,
      playbookMatched: bool)

  datatype ReviewStatus = UnavailableReview | NeedsText | NeedsInput | PlaybookRequired | Failed | Completed

  datatype AuditOutcome = SUCCESS | FAILURE

  // ---- confirmation of metadata ----

  predicate PaymentTermsConfirmed(metadata: Dict) {
    var terms := Get(metadata, PAYMENT_TERMS);
    (if terms.Str? then Strip(terms.s) else "") == "" || Get(metadata, PAYMENT_TERMS_CONFIRMED).Truthy()
  }

  predicate Filled(c: Contract) {
    Strip(c.counterparty) != "" && c.contractType != "OTHER" && Strip(c.governingLaw) != "" && c.value.Some?
  }

  /** The contract's fields are filled and everything that must be confirmed has been. */
  predicate Complete(c: Contract, metadata: Dict) {
    && Filled(c)
    && Get(metadata, GOVERNING_LAW_CONFIRMED).Truthy() && Get(metadata, VALUE_CONFIRMED).Truthy()
    && PaymentTermsConfirmed(metadata)
  }

  function PendingLabels(c: Contract, metadata: Dict): seq<Label> {
    (if Strip(c.counterparty) == "" then [CounterpartyLabel] else [])
    + (if c.contractType == "OTHER" then [ContractTypeLabel] else [])
    + (if !(Strip(c.governingLaw) != "" && Get(metadata, GOVERNING_LAW_CONFIRMED).Truthy())
       then [GoverningLawLabel] else [])
    + (if !(c.value.Some? && Get(metadata, VALUE_CONFIRMED).Truthy()) then [ContractValueLabel] else [])
    + (if !PaymentTermsConfirmed(metadata) then [PaymentTermsLabel] else [])
  }

  function MetadataFromText(x: Extraction): Dict {
    map[GOVERNING_LAW := Str(x.governingLaw), VALUE := Str(x.value),
        CONFIDENCE := Fixed(CONFIRM_BEFORE_RELYING),
        TITLE := Str(x.title), CONTRACT_TYPE := Str(x.contractType), COUNTERPARTY := Str(x.counterparty),
        START_DATE := Str(x.startDate), END_DATE := Str(x.endDate), POSSIBLE_DPA := Flag(x.possibleDpa),
        PAYMENT_TERMS := Str(x.payment)]
  }

  function SeedMetadata(c: Contract, text: string, x: Extraction): Dict {
    (if Strip(text) != "" then MetadataFromText(x) else map[])
    + (if Strip(c.governingLaw) != "" then map[GOVERNING_LAW_CONFIRMED := Flag(true)] else map[])
    + (if c.value.Some? then map[VALUE_CONFIRMED := Flag(true)] else map[])
    + map[PAYMENT_TERMS_CONFIRMED := Flag(true)]
  }

  function Confirmations(metadata: Dict): Dict {
    map key | key in metadata && key.IsConfirmation() :: metadata[key]
  }

  predicate PlaybookChosen(governance: Dict) {
    Get(governance, APPROVED_PLAYBOOK_MATCHED).Truthy() || Get(governance, SELECTED_PLAYBOOK_ID).Truthy()
  }

  // ---- the pipeline on values ----

  function Moved(r: RunState, status: RunStatus, step: Step): RunState {
    r.(status := status, step := step, completed := r.completed || status != AI_REVIEW_IN_PROGRESS)
  }

  /** The final update after a completed review. */
  function Finished(r: RunState, x: Extraction, p: Provider): RunState
    requires p.Reviewed?
  {
    var matched := p.playbookMatched || Get(r.governance, SELECTED_PLAYBOOK_ID).Truthy();
    RunState(READY, ReviewReady, MetadataFromText(x) + Confirmations(r.metadata),
             r.governance[GOVERNANCE_CHARTER := Fixed(CURRENT_GOVERNANCE_CHARTER)]
                         [APPROVED_PLAYBOOK_MATCHED := Flag(matched)]
                         [AI_ANALYSIS_COMPLETED := Flag(true)][CITATION_COUNT := Num(p.spans)],
             if p.model != "" then p.model else r.model, true)
  }

  function Shifted(run: Option<RunState>, status: RunStatus, step: Step): Option<RunState> {
    if run.Some? then Some(Moved(run.value, status, step)) else None
  }

  /** Everything that has to be confirmed has been. */
  predicate Classified(d: Document, run: Option<RunState>) {
    d.contract.Some? && PendingLabels(d.contract.value, if run.Some? then run.value.metadata else map[]) == []
  }

  /** The review status and the run afterwards; there may be no run at all. */
  function Pipeline(aiEnabled: bool, d: Document, run: Option<RunState>, x: Extraction, p: Provider)
    : (ReviewStatus, Option<RunState>)
  {
    if !aiEnabled then (UnavailableReview, Shifted(run, AI_REVIEW_INCOMPLETE, AiReviewing))
    else if Strip(d.text) == "" then (NeedsText, Shifted(run, AI_REVIEW_INCOMPLETE, Extracting))
    else if !Classified(d, run) then (NeedsInput, Shifted(run, CLASSIFICATION_REQUIRED, Classifying))
    else if run.None? || !PlaybookChosen(run.value.governance) then
      (PlaybookRequired, Shifted(run, PLAYBOOK_REQUIRED, MatchingPlaybook))
    else match p
      case Reviewed(_, _, _, _) => (Completed, Some(Finished(run.value, x, p)))
      case Unavailable => (UnavailableReview, Shifted(run, AI_REVIEW_INCOMPLETE, AiReviewing))
      case _ => (Failed, Shifted(run, AI_REVIEW_INCOMPLETE, AiReviewing))
  }

  /** The intermediate status leaves no trace. */
  lemma {:induction false} FinishedFromProgress(r: RunState, x: Extraction, p: Provider)
    requires p.Reviewed?
    ensures Finished(Moved(r, AI_REVIEW_IN_PROGRESS, AiReviewing), x, p) == Finished(r, x, p)
  {
  }

  // ---- the code ----

  class ReviewRun {
    var status: RunStatus
    var step: Step
    var metadata: Dict
    var governance: Dict
    var model: string
    var completed: bool

    ghost function State(): RunState
      reads this
    {
      RunState(status, step, metadata, governance, model, completed)
    }

    /** The run rests at this status and step, and its completion is on record. */
    ghost predicate At(status: RunStatus, step: Step)
      reads this
    {
      this.status == status && this.step == step && completed
    }

    method Update(status: RunStatus, step: Step)
      modifies this
      ensures State() == Moved(old(State()), status, step)
    {
      this.status := status;
      this.step := step;
      if status != AI_REVIEW_IN_PROGRESS { completed := true; }
    }

    method Finish(x: Extraction, p: Provider)
      requires p.Reviewed?
      modifies this
      ensures State() == Finished(old(State()), x, p)
    {
      var extracted := MetadataFromText(x) + Confirmations(metadata);
      var matched := p.playbookMatched || Get(governance, SELECTED_PLAYBOOK_ID).Truthy();
      Update(READY, ReviewReady);
      if p.model != "" { model := p.model; }
      metadata := extracted;
      governance := governance[GOVERNANCE_CHARTER := Fixed(CURRENT_GOVERNANCE_CHARTER)]
                              [APPROVED_PLAYBOOK_MATCHED := Flag(matched)];
      governance := governance[AI_ANALYSIS_COMPLETED := Flag(true)];
      governance := governance[CITATION_COUNT := Num(p.spans)];
    }
  }

  ghost function StateOf(run: ReviewRun?): Option<RunState>
    reads run
  {
    if run == null then None else Some(run.State())
  }

  method Advance(run: ReviewRun?, status: RunStatus, step: Step)
    modifies run
    ensures run != null ==> run.State() == Moved(old(run.State()), status, step)
  {
    if run != null { run.Update(status, step); }
  }

  /** `audit` collects the outcomes recorded. */
  method RunUploadedReview(aiEnabled: bool, d: Document, run: ReviewRun?, x: Extraction, p: Provider)
    returns (review: ReviewStatus, audit: seq<AuditOutcome>)
    modifies run
    ensures (review, StateOf(run)) == Pipeline(aiEnabled, d, old(StateOf(run)), x, p)
    ensures audit == [if review == Completed then SUCCESS else FAILURE]
    // A review completes exactly if every gate lets it through and the provider answers.
    ensures review == Completed
            <==> && aiEnabled && Strip(d.text) != "" && d.contract.Some? && run != null
                 && Complete(d.contract.value, old(run.metadata))
                 && (old(Get(run.governance, APPROVED_PLAYBOOK_MATCHED)).Truthy()
                     || old(Get(run.governance, SELECTED_PLAYBOOK_ID)).Truthy())
                 && p.Reviewed?
    // Otherwise the first gate that fails decides the answer and where the run comes to rest, and that is all.
    ensures !aiEnabled ==>
              review == UnavailableReview && (run != null ==> run.At(AI_REVIEW_INCOMPLETE, AiReviewing))
    ensures aiEnabled && Strip(d.text) == "" ==>
              review == NeedsText && (run != null ==> run.At(AI_REVIEW_INCOMPLETE, Extracting))
    ensures aiEnabled && Strip(d.text) != ""
            && !(d.contract.Some? && Complete(d.contract.value, if run != null then old(run.metadata) else map[])) ==>
              review == NeedsInput && (run != null ==> run.At(CLASSIFICATION_REQUIRED, Classifying))
    ensures aiEnabled && Strip(d.text) != "" && d.contract.Some?
            && Complete(d.contract.value, if run != null then old(run.metadata) else map[])
            && (run == null || !(old(Get(run.governance, APPROVED_PLAYBOOK_MATCHED)).Truthy()
                                 || old(Get(run.governance, SELECTED_PLAYBOOK_ID)).Truthy())) ==>
              review == PlaybookRequired && (run != null ==> run.At(PLAYBOOK_REQUIRED, MatchingPlaybook))
    ensures aiEnabled && Strip(d.text) != "" && d.contract.Some? && run != null && !p.Reviewed?
            && Complete(d.contract.value, old(run.metadata))
            && (old(Get(run.governance, APPROVED_PLAYBOOK_MATCHED)).Truthy()
                || old(Get(run.governance, SELECTED_PLAYBOOK_ID)).Truthy()) ==>
              && review == (if p.Unavailable? then UnavailableReview else Failed)
              && run.At(AI_REVIEW_INCOMPLETE, AiReviewing)
    ensures review != Completed && run != null ==>
              run.metadata == old(run.metadata) && run.governance == old(run.governance) && run.model == old(run.model)
  {
    review := UnavailableReview;
    if !aiEnabled {
      Advance(run, AI_REVIEW_INCOMPLETE, AiReviewing);
      return review, [FAILURE];
    }
    if Strip(d.text) == "" {
      Advance(run, AI_REVIEW_INCOMPLETE, Extracting);
      return NeedsText, [FAILURE];
    }
    var metadata := if run != null then run.metadata else map[];
    var governance := if run != null then run.governance else map[];
    var pending := if d.contract.Some? then PendingLabels(d.contract.value, metadata)
                   else [CounterpartyLabel, ContractTypeLabel, GoverningLawLabel, ContractValueLabel];
    if pending != [] {
      Advance(run, CLASSIFICATION_REQUIRED, Classifying);
      return NeedsInput, [FAILURE];
    }
    if !PlaybookChosen(governance) {
      Advance(run, PLAYBOOK_REQUIRED, MatchingPlaybook);
      return PlaybookRequired, [FAILURE];
    }
    Advance(run, AI_REVIEW_IN_PROGRESS, AiReviewing);
    match p {
      case Unavailable =>
      case InvalidResponse => review := Failed;
      case Crashed => review := Failed;
      case Reviewed(_, _, _, _) =>
        review := Completed;
        run.Finish(x, p);
        FinishedFromProgress(old(run.State()), x, p);
    }
    if review != Completed {
      Advance(run, AI_REVIEW_INCOMPLETE, AiReviewing);
    }
    audit := [if review == Completed then SUCCESS else FAILURE];
  }

  // ---- the confirm endpoint's readiness test ----

  predicate ReviewIsReady(run: Option<RunState>, c: Contract) {
    var metadata := if run.Some? then run.value.metadata else map[];
    var governance := if run.Some? then run.value.governance else map[];
    && run.Some? && run.value.status == READY
    && Get(governance, AI_ANALYSIS_COMPLETED).Truthy()
    && PlaybookChosen(governance)
    && Complete(c, metadata)
  }

  /** Whatever happens, a run comes to rest in one of four statuses, READY exactly when the review completed. */
  lemma {:induction false} RunComesToRest(aiEnabled: bool, d: Document, run: RunState, x: Extraction, p: Provider)
    ensures var (review, after) := Pipeline(aiEnabled, d, Some(run), x, p);
            after.Some? && after.value.status.Resting() && after.value.completed
            && (after.value.status == READY <==> review == Completed)
  {
  }

  lemma {:induction false} NothingPending(c: Contract, metadata: Dict)
    ensures PendingLabels(c, metadata) == []
            <==> Complete(c, metadata)
  {
  }

  lemma {:induction false} ExtractionConfirmsNothing(x: Extraction)
    ensures forall key :: key in MetadataFromText(x) ==> !key.IsConfirmation()
    ensures Get(MetadataFromText(x), PAYMENT_TERMS) == Str(x.payment)
  {
  }

  lemma {:induction false} FinishedMetadata(r: RunState, x: Extraction, p: Provider, key: Key)
    requires p.Reviewed?
    ensures key.IsConfirmation() ==> Get(Finished(r, x, p).metadata, key) == Get(r.metadata, key)
    ensures Get(Finished(r, x, p).metadata, PAYMENT_TERMS) == Str(x.payment)
  {
    ExtractionConfirmsNothing(x);
  }

  lemma {:induction false} FinishedGovernance(r: RunState, x: Extraction, p: Provider)
    requires p.Reviewed?
    ensures var g := Finished(r, x, p).governance;
            && Get(g, AI_ANALYSIS_COMPLETED) == Flag(true)
            && Get(g, SELECTED_PLAYBOOK_ID) == Get(r.governance, SELECTED_PLAYBOOK_ID)
            && Get(g, APPROVED_PLAYBOOK_MATCHED)
               == Flag(p.playbookMatched || Get(r.governance, SELECTED_PLAYBOOK_ID).Truthy())
  {
  }

  /** What the text says under a key, if anything. */
  function Found(x: Extraction, key: Key): Json {
    match key
    case GOVERNING_LAW => Str(x.governingLaw)
    case VALUE => Str(x.value)
    case CONFIDENCE => Fixed(CONFIRM_BEFORE_RELYING)
    case TITLE => Str(x.title)
    case CONTRACT_TYPE => Str(x.contractType)
    case COUNTERPARTY => Str(x.counterparty)
    case START_DATE => Str(x.startDate)
    case END_DATE => Str(x.endDate)
    case POSSIBLE_DPA => Flag(x.possibleDpa)
    case PAYMENT_TERMS => Str(x.payment)
    case _ => Null
  }

  lemma {:induction false} ExtractedExactly(x: Extraction, key: Key)
    ensures Get(MetadataFromText(x), key) == Found(x, key)
  {
  }

  lemma {:induction false} ConfirmationKeys(key: Key)
    ensures key.IsConfirmation()
            <==> || key == GOVERNING_LAW_CONFIRMED || key == VALUE_CONFIRMED || key == PAYMENT_TERMS_CONFIRMED
                 || (key.Extra? && |key.name| >= 10 && key.name[|key.name| - 10..] == "_confirmed")
  {
  }

  /** The metadata after a completed review: what was confirmed stays, everything else is what the text says. */
  lemma {:induction false} FinishedMetadataExactly(r: RunState, x: Extraction, p: Provider, key: Key)
    requires p.Reviewed?
    ensures Get(Finished(r, x, p).metadata, key)
            == if || key == GOVERNING_LAW_CONFIRMED || key == VALUE_CONFIRMED || key == PAYMENT_TERMS_CONFIRMED
                  || (key.Extra? && |key.name| >= 10 && key.name[|key.name| - 10..] == "_confirmed")
               then Get(r.metadata, key) else Found(x, key)
  {
    ConfirmationKeys(key);
    ExtractionConfirmsNothing(x);
    ExtractedExactly(x, key);
    KeptOrFound(r.metadata, MetadataFromText(x), key);
  }

  lemma {:induction false} KeptOrFound(metadata: Dict, found: Dict, key: Key)
    requires forall k :: k in found ==> !k.IsConfirmation()
    ensures Get(found + Confirmations(metadata), key)
            == Get(if key.IsConfirmation() then metadata else found, key)
  {
  }

  /** The governance facts after a completed review: four are set, the others kept. */
  lemma {:induction false} FinishedGovernanceExactly(r: RunState, x: Extraction, p: Provider, key: Key)
    requires p.Reviewed?
    ensures Get(Finished(r, x, p).governance, key)
            == match key
               case GOVERNANCE_CHARTER => Fixed(CURRENT_GOVERNANCE_CHARTER)
               case APPROVED_PLAYBOOK_MATCHED =>
                 Flag(p.playbookMatched || Get(r.governance, SELECTED_PLAYBOOK_ID).Truthy())
               case AI_ANALYSIS_COMPLETED => Flag(true)
               case CITATION_COUNT => Num(p.spans)
               case _ => Get(r.governance, key)
  {
  }

  lemma {:induction false} FinishedColumnsExactly(r: RunState, x: Extraction, p: Provider)
    requires p.Reviewed?
    ensures var after := Finished(r, x, p);
            && after.status == READY && after.step == ReviewReady && after.completed
            && after.model == if p.model == "" then r.model else p.model
  {
  }

  /** The reason for which a label awaits an answer. */
  predicate Awaits(c: Contract, metadata: Dict, l: Label) {
    match l
    case CounterpartyLabel => Strip(c.counterparty) == ""
    case ContractTypeLabel => c.contractType == "OTHER"
    case GoverningLawLabel => Strip(c.governingLaw) == "" || !Get(metadata, GOVERNING_LAW_CONFIRMED).Truthy()
    case ContractValueLabel => c.value == None || !Get(metadata, VALUE_CONFIRMED).Truthy()
    case PaymentTermsLabel =>
      var terms := Get(metadata, PAYMENT_TERMS);
      terms.Str? && Strip(terms.s) != "" && !Get(metadata, PAYMENT_TERMS_CONFIRMED).Truthy()
  }

  /** The labels listed are the ones that await an answer, each for its own reason. */
  lemma {:induction false} LabelsPendExactly(c: Contract, metadata: Dict, l: Label)
    ensures l in PendingLabels(c, metadata) <==> Awaits(c, metadata, l)
  {
  }

  /** Everything is complete exactly if no label awaits an answer. */
  lemma {:induction false} CompleteExactly(c: Contract, metadata: Dict)
    ensures Complete(c, metadata) <==> forall l: Label :: !Awaits(c, metadata, l)
  {
    if forall l: Label :: !Awaits(c, metadata, l) {
      assert !Awaits(c, metadata, CounterpartyLabel) && !Awaits(c, metadata, ContractTypeLabel)
             && !Awaits(c, metadata, GoverningLawLabel) && !Awaits(c, metadata, ContractValueLabel)
             && !Awaits(c, metadata, PaymentTermsLabel);
    }
  }

  /** The confirm endpoint asks for a READY run whose analysis completed on a playbook, and for every answer. */
  lemma {:induction false} ReadinessExactly(run: Option<RunState>, c: Contract)
    ensures ReviewIsReady(run, c)
            <==> && run.Some? && run.value.status == READY
                 && Get(run.value.governance, AI_ANALYSIS_COMPLETED).Truthy()
                 && (Get(run.value.governance, APPROVED_PLAYBOOK_MATCHED).Truthy()
                     || Get(run.value.governance, SELECTED_PLAYBOOK_ID).Truthy())
                 && forall l: Label :: !Awaits(c, run.value.metadata, l)
  {
    if run.Some? { CompleteExactly(c, run.value.metadata); }
  }

  /** A run that has just become READY passes the confirm endpoint's test exactly if the completed review
      itself matched a playbook or one was selected by hand, and the payment terms found in the text, if any,
      had been confirmed. A match recorded before the review does not count: the review overwrites it. */
  lemma {:induction false} ReadyRunPassesExactly(d: Document, run: RunState, x: Extraction, p: Provider)
    requires Pipeline(true, d, Some(run), x, p).0 == Completed
    ensures d.contract.Some?
    ensures ReviewIsReady(Pipeline(true, d, Some(run), x, p).1, d.contract.value)
            <==> (p.playbookMatched || Get(run.governance, SELECTED_PLAYBOOK_ID).Truthy())
                 && (Strip(x.payment) == "" || Get(run.metadata, PAYMENT_TERMS_CONFIRMED).Truthy())
  {
    NothingPending(d.contract.value, run.metadata);
    FinishedMetadata(run, x, p, GOVERNING_LAW_CONFIRMED);
    FinishedMetadata(run, x, p, VALUE_CONFIRMED);
    FinishedMetadata(run, x, p, PAYMENT_TERMS_CONFIRMED);
    FinishedGovernance(run, x, p);
  }

  /** A seeded run carries what a readable text says, and the confirmations the upload form stands for. */
  lemma {:induction false} SeededExactly(c: Contract, text: string, x: Extraction, key: Key)
    ensures Get(SeedMetadata(c, text, x), key)
            == match key
               case GOVERNING_LAW_CONFIRMED => if Strip(c.governingLaw) != "" then Flag(true) else Null
               case VALUE_CONFIRMED => if c.value.Some? then Flag(true) else Null
               case PAYMENT_TERMS_CONFIRMED => Flag(true)
               case _ => if Strip(text) != "" then Found(x, key) else Null
  {
    ExtractedExactly(x, key);
    ExtractionConfirmsNothing(x);
  }

  /** The upload form counts as confirmation: only empty or default contract fields can hold a seeded run up. */
  lemma {:induction false} SeededPendingLabels(c: Contract, text: string, x: Extraction)
    ensures PendingLabels(c, SeedMetadata(c, text, x)) == []
            <==> Filled(c)
  {
    SeededConfirmations(c, text, x);
    NothingPending(c, SeedMetadata(c, text, x));
  }

  lemma {:induction false} SeededConfirmations(c: Contract, text: string, x: Extraction)
    ensures var m := SeedMetadata(c, text, x);
            && (Get(m, GOVERNING_LAW_CONFIRMED).Truthy() <==> Strip(c.governingLaw) != "")
            && (Get(m, VALUE_CONFIRMED).Truthy() <==> c.value.Some?)
            && Get(m, PAYMENT_TERMS_CONFIRMED).Truthy()
  {
    ExtractionConfirmsNothing(x);
  }

  /** A match that was recorded before the review, without a playbook selected by hand, would not survive it. That
      no such record exists is an invariant of the review workspace. */
  lemma {:induction false} EarlierMatchIsForgotten(d: Document, run: RunState, x: Extraction, p: Provider)
    requires Strip(d.text) != "" && Classified(d, Some(run)) && p.Reviewed? && !p.playbookMatched
    requires Get(run.governance, APPROVED_PLAYBOOK_MATCHED).Truthy()
    requires !Get(run.governance, SELECTED_PLAYBOOK_ID).Truthy()
    ensures Pipeline(true, d, Some(run), x, p) == (Completed, Some(Finished(run, x, p)))
    ensures Finished(run, x, p).status == READY && !ReviewIsReady(Some(Finished(run, x, p)), d.contract.value)
  {
    ReadyRunPassesExactly(d, run, x, p);
  }
}
