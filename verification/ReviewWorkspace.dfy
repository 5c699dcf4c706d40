/** One uploaded agreement in the review workspace, from upload to the confirm endpoint: confirmations, the choice
    of a playbook and the AI review, in any order and number. */
module ReviewWorkspace {
  import opened Outcomes
  import opened Text
  import opened DocumentReview

  /** Primary keys are positive. */
  type Pk = n: int | n > 0 witness 1

  datatype Case = Case(run: RunState, contract: Contract, text: string)

  /** A POST to the workspace; None stands for an unknown contract type, no number, or no active playbook. */
  datatype Event =
    | ConfirmCounterparty(text: string)
    | ConfirmContractType(choice: Option<string>)
    | ConfirmGoverningLaw(text: string)
    | ConfirmValue(amount: Option<real>)
    | ConfirmPaymentTerms(text: string)
    | SelectPlaybook(pk: Option<Pk>, name: string)
    | RetryPreview(stamp: string)
    | RunReview(aiEnabled: bool, x: Extraction, p: Provider)

  /** Right after the upload, with or without the review that the upload form may ask for. */
  function AfterUpload(c: Contract, text: string, seed: Extraction, requested: bool,
                       aiEnabled: bool, x: Extraction, p: Provider): Case
  {
    var run := RunState(UPLOADED, Uploaded, SeedMetadata(c, text, seed), map[], "", false);
    Case(if requested then Pipeline(aiEnabled, Document(Some(c), text), Some(run), x, p).1.value else run, c, text)
  }

  predicate Analysed(run: RunState) {
    Get(run.governance, AI_ANALYSIS_COMPLETED).Truthy()
  }

  /** The status after a confirmation, worked out on the contract as it stands in memory. */
  function Recomputed(run: RunState, shown: Contract): RunState {
    if !Complete(shown, run.metadata) then run.(status := CLASSIFICATION_REQUIRED, step := Classifying)
    else if !PlaybookChosen(run.governance) then run.(status := PLAYBOOK_REQUIRED, step := MatchingPlaybook)
    else if !Analysed(run) then run.(status := AI_REVIEW_INCOMPLETE, step := AiReviewing)
    else run
  }

  predicate CanRunReview(c: Case) {
    && (Strip(c.text) != "" || Get(c.run.governance, CITATION_COUNT) != Null)
    && Complete(c.contract, c.run.metadata) && PlaybookChosen(c.run.governance) && !Analysed(c.run)
  }

  /** What a confirmation makes of the run and of the contract, as saved and as it stands in memory:
      a blank answer is not saved. */
  datatype Draft = Draft(run: RunState, saved: Contract, shown: Contract)

  function Drafted(c: Case, e: Event): Draft {
    match e
    case ConfirmCounterparty(text) =>
      var shown := c.contract.(counterparty := Strip(text));
      Draft(c.run, if Strip(text) == "" then c.contract else shown, shown)
    case ConfirmContractType(choice) =>
      if choice.None? || choice.value == "OTHER" then Draft(c.run, c.contract, c.contract)
      else
        var shown := c.contract.(contractType := choice.value);
        Draft(c.run, shown, shown)
    case ConfirmGoverningLaw(text) =>
      var shown := c.contract.(governingLaw := Strip(text));
      if Strip(text) == "" then Draft(c.run, c.contract, shown)
      else Draft(Noted(c.run, GOVERNING_LAW_CONFIRMED, Flag(true)), shown, shown)
    case ConfirmValue(amount) =>
      if amount.None? then Draft(c.run, c.contract, c.contract)
      else
        var shown := c.contract.(value := amount);
        Draft(Noted(c.run, VALUE_CONFIRMED, Flag(true)), shown, shown)
    case ConfirmPaymentTerms(text) =>
      if Strip(text) == "" then Draft(c.run, c.contract, c.contract)
      else
        var run := Noted(Noted(c.run, PAYMENT_TERMS, Str(Strip(text))), PAYMENT_TERMS_CONFIRMED, Flag(true));
        Draft(run, c.contract, c.contract)
    case SelectPlaybook(pk, name) =>
      if pk.None? then Draft(c.run, c.contract, c.contract)
      else
        var chosen := c.run.governance[SELECTED_PLAYBOOK_ID := Num(pk.value)][SELECTED_PLAYBOOK_NAME := Str(name)]
                                      [APPROVED_PLAYBOOK_MATCHED := Flag(true)];
        Draft(c.run.(governance := chosen), c.contract, c.contract)
    case _ => Draft(c.run, c.contract, c.contract)
  }

  function Next(c: Case, e: Event): Case {
    match e
    case RetryPreview(stamp) =>
      c.(run := c.run.(governance := c.run.governance[PREVIEW_RETRY_REQUESTED_AT := Str(stamp)]))
    case RunReview(aiEnabled, x, p) =>
      if !CanRunReview(c) then c
      else c.(run := Pipeline(aiEnabled, Document(Some(c.contract), c.text), Some(c.run), x, p).1.value)
    case _ =>
      var d := Drafted(c, e);
      c.(contract := d.saved, run := Recomputed(d.run, d.shown))
  }

  function Noted(run: RunState, key: Key, value: Json): RunState {
    run.(metadata := run.metadata[key := value])
  }

  predicate StepAt(t: seq<Case>, es: seq<Event>, m: nat)
    requires |t| == |es| + 1 && m < |es|
  {
    t[m + 1] == Next(t[m], es[m])
  }

  /** t are the states of a run of the events es. */
  predicate IsRun(t: seq<Case>, es: seq<Event>) {
    |t| == |es| + 1 && forall m: nat :: m < |es| ==> StepAt(t, es, m)
  }

  // ---- what every step keeps ----

  predicate Selected(run: RunState) {
    Get(run.governance, SELECTED_PLAYBOOK_ID).Truthy()
  }

  /** A recorded match always comes with a selected playbook; payment terms count as confirmed from the upload on;
      a completed analysis found everything confirmed, and only it makes a run READY. */
  predicate Sound(c: Case) {
    && (Get(c.run.governance, APPROVED_PLAYBOOK_MATCHED).Truthy() ==> Selected(c.run))
    && Get(c.run.metadata, PAYMENT_TERMS_CONFIRMED).Truthy()
    && (Analysed(c.run) ==> Selected(c.run) && Complete(c.contract, c.run.metadata))
    && (c.run.status == READY ==> Analysed(c.run))
  }

  lemma {:induction false} ReviewKeepsSound(c: Case, aiEnabled: bool, x: Extraction, p: Provider)
    requires Sound(c)
    ensures var (review, run) := Pipeline(aiEnabled, Document(Some(c.contract), c.text), Some(c.run), x, p);
            && run.Some? && Sound(c.(run := run.value))
            && (review == Completed ==> Selected(c.run) && run.value.status == READY && Analysed(run.value))
            && (review != Completed ==> run.value.status != READY && (Analysed(run.value) <==> Analysed(c.run)))
  {
    var d := Document(Some(c.contract), c.text);
    RunComesToRest(aiEnabled, d, c.run, x, p);
    if Pipeline(aiEnabled, d, Some(c.run), x, p).0 == Completed {
      NothingPending(c.contract, c.run.metadata);
      NothingPending(c.contract, Finished(c.run, x, p).metadata);
      FinishedMetadata(c.run, x, p, GOVERNING_LAW_CONFIRMED);
      FinishedMetadata(c.run, x, p, VALUE_CONFIRMED);
      FinishedMetadata(c.run, x, p, PAYMENT_TERMS_CONFIRMED);
      FinishedGovernance(c.run, x, p);
    }
  }

  /** A blank counterparty or governing law. */
  predicate Slip(e: Event) {
    match e
    case ConfirmCounterparty(text) => Strip(text) == ""
    case ConfirmGoverningLaw(text) => Strip(text) == ""
    case _ => false
  }

  /** A confirmation loses nothing that was confirmed, and shows the contract as saved unless it is a slip. */
  predicate Harmless(c: Case, d: Draft, slip: bool) {
    && d.run.status == c.run.status && (Analysed(d.run) <==> Analysed(c.run))
    && (Get(d.run.governance, APPROVED_PLAYBOOK_MATCHED).Truthy() ==> Selected(d.run))
    && (Selected(c.run) ==> Selected(d.run)) && Get(d.run.metadata, PAYMENT_TERMS_CONFIRMED).Truthy()
    && (Complete(c.contract, c.run.metadata) ==> Complete(d.saved, d.run.metadata))
    && (if slip then !Complete(d.shown, d.run.metadata) else d.shown == d.saved)
  }

  lemma {:induction false} DraftsAreHarmless(c: Case, e: Event)
    requires Sound(c)
    ensures Harmless(c, Drafted(c, e), Slip(e))
  {
  }

  /** How one step moves a sound case. */
  predicate Moves(c: Case, after: Case, slip: bool) {
    && Sound(after)
    && (if Analysed(c.run) then Analysed(after.run) && (after.run.status == READY <==> c.run.status == READY && !slip)
        else Analysed(after.run) ==> after.run.status == READY)
  }

  lemma {:induction false} RecomputedMoves(c: Case, d: Draft, slip: bool)
    requires Sound(c) && Harmless(c, d, slip)
    ensures Moves(c, c.(contract := d.saved, run := Recomputed(d.run, d.shown)), slip)
  {
  }

  lemma {:induction false} StepKeepsSound(c: Case, e: Event)
    requires Sound(c)
    ensures Moves(c, Next(c, e), Slip(e))
  {
    match e
    case RunReview(aiEnabled, x, p) => ReviewKeepsSound(c, aiEnabled, x, p);
    case RetryPreview(_) =>
    case _ =>
      DraftsAreHarmless(c, e);
      RecomputedMoves(c, Drafted(c, e), Slip(e));
  }

  lemma {:induction false} UploadIsSound(c: Contract, text: string, seed: Extraction, requested: bool,
                                         aiEnabled: bool, x: Extraction, p: Provider)
    ensures var start := AfterUpload(c, text, seed, requested, aiEnabled, x, p);
            Sound(start) && !Analysed(start.run)
  {
    SeededConfirmations(c, text, seed);
    var uploaded := AfterUpload(c, text, seed, false, aiEnabled, x, p);
    assert Sound(uploaded);
    ReviewKeepsSound(uploaded, aiEnabled, x, p);
  }

  predicate MovesAt(t: seq<Case>, es: seq<Event>, m: nat)
    requires |t| == |es| + 1 && m < |es|
  {
    Moves(t[m], t[m + 1], Slip(es[m]))
  }

  lemma {:induction false} RunMoves(t: seq<Case>, es: seq<Event>, m: nat)
    requires IsRun(t, es) && m < |es| && Sound(t[m])
    ensures MovesAt(t, es, m)
  {
    assert StepAt(t, es, m);
    StepKeepsSound(t[m], es[m]);
  }

  lemma {:induction false} RunKeepsSound(t: seq<Case>, es: seq<Event>, n: nat)
    requires IsRun(t, es) && Sound(t[0]) && n <= |es|
    ensures Sound(t[n])
  {
    if n == 0 {
    } else {
      RunKeepsSound(t, es, n - 1);
      RunMoves(t, es, n - 1);
    }
  }

  /** The confirm endpoint's test. */
  predicate Confirmable(c: Case) {
    ReviewIsReady(Some(c.run), c.contract)
  }

  lemma {:induction false} SoundReadiness(c: Case)
    requires Sound(c)
    ensures Confirmable(c) <==> c.run.status == READY
  {
  }

  /** End to end: over every run of the workspace from an upload, the confirm endpoint's test holds exactly when
      the run is READY. */
  lemma {:induction false} ReadyIsConfirmable(c: Contract, text: string, seed: Extraction, requested: bool,
                                              aiEnabled: bool, x: Extraction, p: Provider,
                                              t: seq<Case>, es: seq<Event>, n: nat)
    requires IsRun(t, es) && t[0] == AfterUpload(c, text, seed, requested, aiEnabled, x, p) && n <= |es|
    ensures Confirmable(t[n]) <==> t[n].run.status == READY
  {
    UploadIsSound(c, text, seed, requested, aiEnabled, x, p);
    RunKeepsSound(t, es, n);
    SoundReadiness(t[n]);
  }

  lemma {:induction false} StatusMoves(t: seq<Case>, es: seq<Event>, m: nat)
    requires IsRun(t, es) && Sound(t[0]) && m < |es|
    ensures Analysed(t[m].run) ==>
              && Analysed(t[m + 1].run)
              && (t[m + 1].run.status == READY <==> t[m].run.status == READY && !Slip(es[m]))
    ensures !Analysed(t[m].run) && Analysed(t[m + 1].run) ==> t[m + 1].run.status == READY
  {
    RunKeepsSound(t, es, m);
    RunMoves(t, es, m);
  }

  /** READY lasts from the completion of the review until the first slip, and never returns. */
  lemma {:induction false} ReadyUntilASlip(t: seq<Case>, es: seq<Event>, i: nat, n: nat)
    requires IsRun(t, es) && Sound(t[0]) && i < n <= |es| && !Analysed(t[i].run) && Analysed(t[i + 1].run)
    ensures Analysed(t[n].run) && (t[n].run.status == READY <==> forall m :: i < m < n ==> !Slip(es[m]))
    decreases n
  {
    StatusMoves(t, es, n - 1);
    if n == i + 1 {
    } else {
      ReadyUntilASlip(t, es, i, n - 1);
    }
  }

  /** Once the review has completed, in step i, the contract can be confirmed exactly until someone posts a blank
      counterparty or governing law: the status that this takes away never comes back, since a completed review
      is not run again. */
  lemma {:induction false} ConfirmableUntilASlip(t: seq<Case>, es: seq<Event>, i: nat, n: nat)
    requires IsRun(t, es) && Sound(t[0]) && i < n <= |es| && !Analysed(t[i].run) && Analysed(t[i + 1].run)
    ensures Confirmable(t[n]) <==> forall m :: i < m < n ==> !Slip(es[m])
  {
    ReadyUntilASlip(t, es, i, n);
    RunKeepsSound(t, es, n);
    SoundReadiness(t[n]);
  }

  /** It does happen: from any sound case that is complete but for the playbook and the review, choosing one and
      running the review makes the contract confirmable, and any slip after it takes that away. */
  lemma {:induction false} OneSlipBlocksConfirmation(c: Case, pk: Pk, name: string, x: Extraction, p: Provider,
                                                     slip: Event)
    requires Sound(c) && !Analysed(c.run) && Complete(c.contract, c.run.metadata)
    requires Strip(c.text) != "" && p.Reviewed? && Slip(slip)
    ensures var reviewed := Next(Next(c, SelectPlaybook(Some(pk), name)), RunReview(true, x, p));
            Confirmable(reviewed) && !Confirmable(Next(reviewed, slip))
  {
    PlaybookOpensReview(c, pk, name);
    var chosen := Next(c, SelectPlaybook(Some(pk), name));
    ReviewRuns(chosen, x, p);
    SlipCloses(Next(chosen, RunReview(true, x, p)), slip);
  }

  lemma {:induction false} PlaybookOpensReview(c: Case, pk: Pk, name: string)
    requires Sound(c) && !Analysed(c.run) && Complete(c.contract, c.run.metadata) && Strip(c.text) != ""
    ensures var chosen := Next(c, SelectPlaybook(Some(pk), name));
            Sound(chosen) && CanRunReview(chosen) && chosen.text == c.text
  {
    StepKeepsSound(c, SelectPlaybook(Some(pk), name));
  }

  lemma {:induction false} SlipCloses(c: Case, slip: Event)
    requires Sound(c) && Analysed(c.run) && Slip(slip)
    ensures !Confirmable(Next(c, slip))
  {
    StepKeepsSound(c, slip);
    SoundReadiness(Next(c, slip));
  }

  lemma {:induction false} ReviewRuns(c: Case, x: Extraction, p: Provider)
    requires Sound(c) && CanRunReview(c) && Strip(c.text) != "" && p.Reviewed?
    ensures var reviewed := Next(c, RunReview(true, x, p));
            Sound(reviewed) && Analysed(reviewed.run) && Confirmable(reviewed)
  {
    NothingPending(c.contract, c.run.metadata);
    ReviewKeepsSound(c, true, x, p);
    SoundReadiness(Next(c, RunReview(true, x, p)));
  }

  // ---- answers ----

  /** The event is an acceptable answer to what the label asks for. */
  predicate Answers(e: Event, l: Label) {
    match l
    case CounterpartyLabel => e.ConfirmCounterparty? && Strip(e.text) != ""
    case ContractTypeLabel => e.ConfirmContractType? && e.choice.Some? && e.choice != Some("OTHER")
    case GoverningLawLabel => e.ConfirmGoverningLaw? && Strip(e.text) != ""
    case ContractValueLabel => e.ConfirmValue? && e.amount.Some?
    case PaymentTermsLabel => e.ConfirmPaymentTerms? && Strip(e.text) != ""
  }

  predicate Selects(e: Event) {
    e.SelectPlaybook? && e.pk.Some?
  }

  predicate Pends(c: Case, l: Label) {
    Awaits(c.contract, c.run.metadata, l)
  }

  lemma {:induction false} DraftSettles(c: Case, e: Event, l: Label)
    requires Get(c.run.metadata, PAYMENT_TERMS_CONFIRMED).Truthy()
    ensures Awaits(Drafted(c, e).saved, Drafted(c, e).run.metadata, l) <==> Pends(c, l) && !Answers(e, l)
  {
  }

  lemma {:induction false} PipelineLeaves(aiEnabled: bool, d: Document, run: RunState, x: Extraction, p: Provider)
    ensures var (review, after) := Pipeline(aiEnabled, d, Some(run), x, p);
            && after.Some?
            && (|| (review == Completed && p.Reviewed? && after.value == Finished(run, x, p))
                || (review != Completed && after.value.metadata == run.metadata
                    && after.value.governance == run.governance))
  {
  }

  lemma {:induction false} ReviewStep(c: Case, e: Event)
    requires e.RunReview?
    ensures Next(c, e).contract == c.contract
    ensures || (e.p.Reviewed? && Next(c, e).run == Finished(c.run, e.x, e.p))
            || (Next(c, e).run.metadata == c.run.metadata && Next(c, e).run.governance == c.run.governance)
  {
    PipelineLeaves(e.aiEnabled, Document(Some(c.contract), c.text), c.run, e.x, e.p);
  }

  lemma {:induction false} FinishedSettlesNothing(c: Contract, r: RunState, x: Extraction, p: Provider, l: Label)
    requires p.Reviewed? && Get(r.metadata, PAYMENT_TERMS_CONFIRMED).Truthy()
    ensures Awaits(c, Finished(r, x, p).metadata, l) <==> Awaits(c, r.metadata, l)
  {
    FinishedMetadata(r, x, p, GOVERNING_LAW_CONFIRMED);
    FinishedMetadata(r, x, p, VALUE_CONFIRMED);
    FinishedMetadata(r, x, p, PAYMENT_TERMS_CONFIRMED);
  }

  lemma {:induction false} ConfirmationStep(c: Case, e: Event)
    requires !e.RunReview? && !e.RetryPreview?
    ensures Next(c, e).contract == Drafted(c, e).saved
    ensures Next(c, e).run.metadata == Drafted(c, e).run.metadata
    ensures Next(c, e).run.governance == Drafted(c, e).run.governance
  {
  }

  /** One step settles exactly the label it answers, and unsettles none. */
  lemma {:induction false} StepSettlesExactly(c: Case, e: Event, l: Label)
    requires Get(c.run.metadata, PAYMENT_TERMS_CONFIRMED).Truthy()
    ensures Pends(Next(c, e), l) <==> Pends(c, l) && !Answers(e, l)
  {
    if e.RunReview? {
      ReviewStep(c, e);
      if e.p.Reviewed? { FinishedSettlesNothing(c.contract, c.run, e.x, e.p, l); }
    } else if !e.RetryPreview? {
      DraftSettles(c, e, l);
      ConfirmationStep(c, e);
    }
  }

  lemma {:induction false} DraftSelects(c: Case, e: Event)
    ensures var d := Drafted(c, e);
            && (Selected(d.run) <==> Selected(c.run) || Selects(e))
            && Get(d.run.governance, CITATION_COUNT) == Get(c.run.governance, CITATION_COUNT)
  {
  }

  /** A playbook is selected by selecting one, and only the review counts citations. */
  lemma {:induction false} StepSelectsExactly(c: Case, e: Event)
    ensures Selected(Next(c, e).run) <==> Selected(c.run) || Selects(e)
    ensures Analysed(Next(c, e).run)
            || Get(Next(c, e).run.governance, CITATION_COUNT) == Get(c.run.governance, CITATION_COUNT)
  {
    if e.RunReview? {
      ReviewStep(c, e);
      if e.p.Reviewed? { FinishedGovernance(c.run, e.x, e.p); }
    } else if !e.RetryPreview? {
      DraftSelects(c, e);
      ConfirmationStep(c, e);
    }
  }

  /** What a step saves on the contract: the answer as posted, and nothing else. */
  lemma {:induction false} StepSavesExactly(c: Case, e: Event)
    ensures var before, after := c.contract, Next(c, e).contract;
            && after.counterparty == (if Answers(e, CounterpartyLabel) then Strip(e.text) else before.counterparty)
            && after.contractType == (if Answers(e, ContractTypeLabel) then e.choice.value else before.contractType)
            && after.governingLaw == (if Answers(e, GoverningLawLabel) then Strip(e.text) else before.governingLaw)
            && after.value == (if Answers(e, ContractValueLabel) then e.amount else before.value)
    ensures Next(c, e).text == c.text
  {
  }

  /** The entry that an answer notes on the run. */
  function Noting(metadata: Dict, e: Event, key: Key): Json {
    if key == GOVERNING_LAW_CONFIRMED && Answers(e, GoverningLawLabel) then Flag(true)
    else if key == VALUE_CONFIRMED && Answers(e, ContractValueLabel) then Flag(true)
    else if key == PAYMENT_TERMS_CONFIRMED && Answers(e, PaymentTermsLabel) then Flag(true)
    else if key == PAYMENT_TERMS && Answers(e, PaymentTermsLabel) then Str(Strip(e.text))
    else Get(metadata, key)
  }

  /** The entry that the choice of a playbook leaves behind, or the request for a retry. */
  function Choosing(governance: Dict, e: Event, key: Key): Json {
    if Selects(e) && key == SELECTED_PLAYBOOK_ID then Num(e.pk.value)
    else if Selects(e) && key == SELECTED_PLAYBOOK_NAME then Str(e.name)
    else if Selects(e) && key == APPROVED_PLAYBOOK_MATCHED then Flag(true)
    else if e.RetryPreview? && key == PREVIEW_RETRY_REQUESTED_AT then Str(e.stamp)
    else Get(governance, key)
  }

  lemma {:induction false} NotedEntry(run: RunState, at: Key, value: Json, key: Key)
    ensures Get(Noted(run, at, value).metadata, key) == if key == at then value else Get(run.metadata, key)
  {
  }

  lemma {:induction false} PaymentTermsNoted(c: Case, e: Event, key: Key)
    requires e.ConfirmPaymentTerms?
    ensures Get(Drafted(c, e).run.metadata, key) == Noting(c.run.metadata, e, key)
  {
    var once := Noted(c.run, PAYMENT_TERMS, Str(Strip(e.text)));
    NotedEntry(c.run, PAYMENT_TERMS, Str(Strip(e.text)), key);
    NotedEntry(once, PAYMENT_TERMS_CONFIRMED, Flag(true), key);
  }

  lemma {:induction false} DraftNotes(c: Case, e: Event, key: Key)
    requires !e.RetryPreview?
    ensures Get(Drafted(c, e).run.metadata, key) == Noting(c.run.metadata, e, key)
  {
    if e.ConfirmPaymentTerms? {
      PaymentTermsNoted(c, e, key);
    } else {
      NotedEntry(c.run, GOVERNING_LAW_CONFIRMED, Flag(true), key);
      NotedEntry(c.run, VALUE_CONFIRMED, Flag(true), key);
    }
  }

  lemma {:induction false} DraftChooses(c: Case, e: Event, key: Key)
    requires !e.RetryPreview?
    ensures Get(Drafted(c, e).run.governance, key) == Choosing(c.run.governance, e, key)
  {
  }

  /** What a step other than the review notes on the run: the confirmations, the payment terms, the choice of a
      playbook and the time of a retry; every other entry stays. */
  lemma {:induction false} StepNotesExactly(c: Case, e: Event, key: Key)
    requires !e.RunReview?
    ensures Get(Next(c, e).run.metadata, key) == Noting(c.run.metadata, e, key)
    ensures Get(Next(c, e).run.governance, key) == Choosing(c.run.governance, e, key)
  {
    if !e.RetryPreview? {
      DraftNotes(c, e, key);
      DraftChooses(c, e, key);
      ConfirmationStep(c, e);
    }
  }

  /** Where a confirmation leaves the run: at the first thing still missing, a slip counting as a missing answer. */
  lemma {:induction false} StatusExactly(c: Case, e: Event)
    requires Sound(c) && !e.RunReview? && !e.RetryPreview?
    ensures var before, after := c.run, Next(c, e).run;
            (after.status, after.step)
            == if Slip(e) || !Complete(Next(c, e).contract, after.metadata) then (CLASSIFICATION_REQUIRED, Classifying)
               else if !Selected(after) then (PLAYBOOK_REQUIRED, MatchingPlaybook)
               else if !Analysed(after) then (AI_REVIEW_INCOMPLETE, AiReviewing)
               else (before.status, before.step)
  {
    DraftsAreHarmless(c, e);
    RecomputedStatus(c, Drafted(c, e), Slip(e));
  }

  lemma {:induction false} RecomputedStatus(c: Case, d: Draft, slip: bool)
    requires Harmless(c, d, slip)
    ensures var before, after := d.run, Recomputed(d.run, d.shown);
            && after.metadata == before.metadata && after.governance == before.governance
            && (after.status, after.step)
               == if slip || !Complete(d.saved, before.metadata) then (CLASSIFICATION_REQUIRED, Classifying)
                  else if !Selected(before) then (PLAYBOOK_REQUIRED, MatchingPlaybook)
                  else if !Analysed(before) then (AI_REVIEW_INCOMPLETE, AiReviewing)
                  else (before.status, before.step)
  {
  }

  predicate AnsweredBefore(es: seq<Event>, n: nat, l: Label)
    requires n <= |es|
  {
    exists m :: 0 <= m < n && Answers(es[m], l)
  }

  predicate SelectedBefore(es: seq<Event>, n: nat)
    requires n <= |es|
  {
    exists m :: 0 <= m < n && Selects(es[m])
  }

  predicate SettlesAt(t: seq<Case>, es: seq<Event>, m: nat, l: Label)
    requires |t| == |es| + 1 && m < |es|
  {
    Pends(t[m + 1], l) <==> Pends(t[m], l) && !Answers(es[m], l)
  }

  lemma {:induction false} RunSettlesAt(t: seq<Case>, es: seq<Event>, m: nat, l: Label)
    requires IsRun(t, es) && Sound(t[0]) && m < |es|
    ensures SettlesAt(t, es, m, l)
  {
    RunKeepsSound(t, es, m);
    assert StepAt(t, es, m);
    StepSettlesExactly(t[m], es[m], l);
  }

  lemma {:induction false} StepsSettle(t: seq<Case>, es: seq<Event>, n: nat, l: Label)
    requires |t| == |es| + 1 && n <= |es| && forall m: nat :: m < n ==> SettlesAt(t, es, m, l)
    ensures Pends(t[n], l) <==> Pends(t[0], l) && !AnsweredBefore(es, n, l)
  {
    if n == 0 {
    } else {
      StepsSettle(t, es, n - 1, l);
      assert SettlesAt(t, es, n - 1, l);
    }
  }

  lemma {:induction false} RunSettlesExactly(t: seq<Case>, es: seq<Event>, n: nat, l: Label)
    requires IsRun(t, es) && Sound(t[0]) && n <= |es|
    ensures Pends(t[n], l) <==> Pends(t[0], l) && !AnsweredBefore(es, n, l)
  {
    forall m: nat | m < n ensures SettlesAt(t, es, m, l) { RunSettlesAt(t, es, m, l); }
    StepsSettle(t, es, n, l);
  }

  predicate SelectsAt(t: seq<Case>, es: seq<Event>, m: nat)
    requires |t| == |es| + 1 && m < |es|
  {
    && (Selected(t[m + 1].run) <==> Selected(t[m].run) || Selects(es[m]))
    && t[m + 1].text == t[m].text && (Analysed(t[m].run) ==> Analysed(t[m + 1].run))
    && (Analysed(t[m + 1].run)
        || Get(t[m + 1].run.governance, CITATION_COUNT) == Get(t[m].run.governance, CITATION_COUNT))
  }

  lemma {:induction false} RunSelectsAt(t: seq<Case>, es: seq<Event>, m: nat)
    requires IsRun(t, es) && Sound(t[0]) && m < |es|
    ensures SelectsAt(t, es, m)
  {
    assert StepAt(t, es, m);
    StepSelectsExactly(t[m], es[m]);
    StepSavesExactly(t[m], es[m]);
    StatusMoves(t, es, m);
  }

  lemma {:induction false} StepsSelect(t: seq<Case>, es: seq<Event>, n: nat)
    requires |t| == |es| + 1 && n <= |es| && forall m: nat :: m < n ==> SelectsAt(t, es, m)
    ensures Selected(t[n].run) <==> Selected(t[0].run) || SelectedBefore(es, n)
    ensures t[n].text == t[0].text
    ensures !Analysed(t[n].run) ==> Get(t[n].run.governance, CITATION_COUNT) == Get(t[0].run.governance, CITATION_COUNT)
  {
    if n == 0 {
    } else {
      StepsSelect(t, es, n - 1);
      assert SelectsAt(t, es, n - 1);
    }
  }

  lemma {:induction false} RunSelectsExactly(t: seq<Case>, es: seq<Event>, n: nat)
    requires IsRun(t, es) && Sound(t[0]) && n <= |es|
    ensures Selected(t[n].run) <==> Selected(t[0].run) || SelectedBefore(es, n)
    ensures t[n].text == t[0].text
    ensures !Analysed(t[n].run) ==> Get(t[n].run.governance, CITATION_COUNT) == Get(t[0].run.governance, CITATION_COUNT)
  {
    forall m: nat | m < n ensures SelectsAt(t, es, m) { RunSelectsAt(t, es, m); }
    StepsSelect(t, es, n);
  }

  /** What the contract says is the last acceptable answer posted. */
  lemma {:induction false} LastAnswerIsSaved(t: seq<Case>, es: seq<Event>, m: nat, n: nat, l: Label)
    requires IsRun(t, es) && m < n <= |es| && Answers(es[m], l) && forall k :: m < k < n ==> !Answers(es[k], l)
    ensures l == CounterpartyLabel ==> t[n].contract.counterparty == Strip(es[m].text)
    ensures l == ContractTypeLabel ==> Some(t[n].contract.contractType) == es[m].choice
    ensures l == GoverningLawLabel ==> t[n].contract.governingLaw == Strip(es[m].text)
    ensures l == ContractValueLabel ==> t[n].contract.value == es[m].amount
    decreases n
  {
    assert StepAt(t, es, n - 1);
    StepSavesExactly(t[n - 1], es[n - 1]);
    if m < n - 1 { LastAnswerIsSaved(t, es, m, n - 1, l); }
  }

  /** What the upload form answers already. */
  predicate FilledIn(c: Contract, l: Label) {
    match l
    case CounterpartyLabel => Strip(c.counterparty) != ""
    case ContractTypeLabel => c.contractType != "OTHER"
    case GoverningLawLabel => Strip(c.governingLaw) != ""
    case ContractValueLabel => c.value.Some?
    case PaymentTermsLabel => true
  }

  lemma {:induction false} UploadKeepsSeed(c: Contract, text: string, seed: Extraction, requested: bool,
                                           aiEnabled: bool, x: Extraction, p: Provider)
    ensures var start := AfterUpload(c, text, seed, requested, aiEnabled, x, p);
            && start.text == text && start.contract == c
            && start.run.governance == map[] && start.run.metadata == SeedMetadata(c, text, seed)
  {
    var run := AfterUpload(c, text, seed, false, aiEnabled, x, p).run;
    PipelineLeaves(aiEnabled, Document(Some(c), text), run, x, p);
    assert Pipeline(aiEnabled, Document(Some(c), text), Some(run), x, p).0 != Completed;
  }

  lemma {:induction false} UploadSettles(c: Contract, text: string, seed: Extraction, requested: bool,
                                         aiEnabled: bool, x: Extraction, p: Provider, l: Label)
    ensures Pends(AfterUpload(c, text, seed, requested, aiEnabled, x, p), l) <==> !FilledIn(c, l)
  {
    UploadKeepsSeed(c, text, seed, requested, aiEnabled, x, p);
    SeedSettles(c, text, seed, l);
  }

  lemma {:induction false} SeedSettles(c: Contract, text: string, seed: Extraction, l: Label)
    ensures Awaits(c, SeedMetadata(c, text, seed), l) <==> !FilledIn(c, l)
  {
    SeededConfirmations(c, text, seed);
  }

  /** Over every run from an upload, until the review has completed, it can be run exactly if the agreement has a
      readable text, everything was answered on the upload form or since, and a playbook was selected. */
  lemma {:induction false} ReviewOpensExactly(c: Contract, text: string, seed: Extraction, requested: bool,
                                              aiEnabled: bool, x: Extraction, p: Provider,
                                              t: seq<Case>, es: seq<Event>, n: nat)
    requires IsRun(t, es) && t[0] == AfterUpload(c, text, seed, requested, aiEnabled, x, p) && n <= |es|
    requires !Analysed(t[n].run)
    ensures CanRunReview(t[n])
            <==> Strip(text) != "" && SelectedBefore(es, n) && forall l :: FilledIn(c, l) || AnsweredBefore(es, n, l)
  {
    UploadIsSound(c, text, seed, requested, aiEnabled, x, p);
    RunKeepsSound(t, es, n);
    RunSelectsExactly(t, es, n);
    UploadKeepsSeed(c, text, seed, requested, aiEnabled, x, p);
    RunCompletesExactly(c, text, seed, requested, aiEnabled, x, p, t, es, n);
  }

  lemma {:induction false} RunCompletesExactly(c: Contract, text: string, seed: Extraction, requested: bool,
                                               aiEnabled: bool, x: Extraction, p: Provider,
                                               t: seq<Case>, es: seq<Event>, n: nat)
    requires IsRun(t, es) && t[0] == AfterUpload(c, text, seed, requested, aiEnabled, x, p) && n <= |es|
    ensures Complete(t[n].contract, t[n].run.metadata) <==> forall l :: FilledIn(c, l) || AnsweredBefore(es, n, l)
  {
    UploadIsSound(c, text, seed, requested, aiEnabled, x, p);
    CompleteExactly(t[n].contract, t[n].run.metadata);
    forall l ensures Awaits(t[n].contract, t[n].run.metadata, l) <==> !(FilledIn(c, l) || AnsweredBefore(es, n, l)) {
      UploadSettles(c, text, seed, requested, aiEnabled, x, p, l);
      RunSettlesExactly(t, es, n, l);
      assert Pends(t[n], l) <==> Awaits(t[n].contract, t[n].run.metadata, l);
    }
  }

  /** And then a review that the provider answers makes the contract confirmable exactly if all that was done. */
  lemma {:induction false} AnswersLeadToConfirmation(c: Contract, text: string, seed: Extraction, requested: bool,
                                                     aiEnabled: bool, x: Extraction, p: Provider,
                                                     t: seq<Case>, es: seq<Event>, n: nat,
                                                     found: Extraction, answer: Provider)
    requires IsRun(t, es) && t[0] == AfterUpload(c, text, seed, requested, aiEnabled, x, p) && n <= |es|
    requires !Analysed(t[n].run) && answer.Reviewed?
    ensures Confirmable(Next(t[n], RunReview(true, found, answer)))
            <==> Strip(text) != "" && SelectedBefore(es, n) && forall l :: FilledIn(c, l) || AnsweredBefore(es, n, l)
  {
    UploadIsSound(c, text, seed, requested, aiEnabled, x, p);
    RunKeepsSound(t, es, n);
    RunSelectsExactly(t, es, n);
    UploadKeepsSeed(c, text, seed, requested, aiEnabled, x, p);
    ReviewOpensExactly(c, text, seed, requested, aiEnabled, x, p, t, es, n);
    if CanRunReview(t[n]) {
      ReviewRuns(t[n], found, answer);
    } else {
      SoundReadiness(t[n]);
    }
  }
}
