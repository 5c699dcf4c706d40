/** Signature requests: their status table, who may move them, and routing by signing order. */
module SignaturePackets {
  import opened Outcomes
  import opened Text

  datatype Status = PENDING | SENT | VIEWED | SIGNED | DECLINED | EXPIRED | CANCELLED {
    predicate Terminal() {
      this in {SIGNED, DECLINED, EXPIRED, CANCELLED}
    }

    /** The most status changes that can still follow. */
    function Height(): nat {
      match this
      case PENDING => 3
      case SENT => 2
      case VIEWED => 1
      case _ => 0
    }
  }

  datatype Request = Request(
    contract: int, order: nat, status: Status, signerEmail: string, createdBy: Option<int>, organization: Option<int>)

  /** A user with the organisations he or she may manage. */
  datatype Actor = Nobody | User(id: int, email: string, manages: set<int>)

  function Allowed(s: Status): set<Status> {
    match s
    case PENDING => {SENT, CANCELLED}
    case SENT => {VIEWED, SIGNED, DECLINED, EXPIRED, CANCELLED}
    case VIEWED => {SIGNED, DECLINED, EXPIRED, CANCELLED}
    case _ => {}
  }

  predicate CanTransitionTo(r: Request, to: Status) {
    to == r.status || to in Allowed(r.status)
  }

  function Normalized(email: string): string {
    Lower(Strip(email))
  }

  /** The open requests of the same contract with a smaller order; none are sought for order 0. */
  function RoutingBlockers(table: seq<Request>, r: Request): seq<Request> {
    if r.order == 0 then [] else OpenBefore(table, r)
  }

  function OpenBefore(table: seq<Request>, r: Request): seq<Request> {
    if table == [] then []
    else (if table[0].contract == r.contract && table[0].order < r.order && !table[0].status.Terminal()
          then [table[0]] else []) + OpenBefore(table[1..], r)
  }

  predicate IsRoutingReady(table: seq<Request>, r: Request) {
    RoutingBlockers(table, r) == []
  }

  predicate CreatorOrManager(r: Request, actor: Actor) {
    actor.User? && (r.createdBy == Some(actor.id) || (r.organization.Some? && r.organization.value in actor.manages))
  }

  predicate IsSigner(r: Request, actor: Actor) {
    actor.User? && Normalized(r.signerEmail) != "" && Normalized(r.signerEmail) == Normalized(actor.email)
  }

  predicate CanActorTransition(table: seq<Request>, r: Request, actor: Actor, to: Status) {
    if actor.Nobody? then false
    else if CreatorOrManager(r, actor) then true
    else
      var signer, mail := Normalized(r.signerEmail), Normalized(actor.email);
      if to in {VIEWED, SIGNED, DECLINED} && signer != "" && mail != "" then
        IsRoutingReady(table, r) && signer == mail
      else false
  }

  const OFFERED: seq<Status> := [SENT, VIEWED, SIGNED, DECLINED, EXPIRED, CANCELLED]

  function Selected(table: seq<Request>, r: Request, actor: Actor, offered: seq<Status>): seq<Status> {
    if offered == [] then []
    else (if CanTransitionTo(r, offered[0]) && CanActorTransition(table, r, actor, offered[0])
          then [offered[0]] else [])
         + Selected(table, r, actor, offered[1..])
  }

  function AvailableTransitions(table: seq<Request>, r: Request, actor: Actor): seq<Status> {
    var mail := if actor.User? then Normalized(actor.email) else "";
    if !IsRoutingReady(table, r) && mail != "" && mail == Normalized(r.signerEmail) then []
    else Selected(table, r, actor, OFFERED)
  }

  // ---- routing ----

  /** Readiness means: every request of a smaller order on the contract is terminal. */
  lemma {:induction false} ReadyMeansEarlierTerminal(table: seq<Request>, r: Request)
    ensures IsRoutingReady(table, r)
            <==> forall i :: 0 <= i < |table| && table[i].contract == r.contract && table[i].order < r.order ==>
                table[i].status.Terminal()
  {
    OpenBeforeEmpty(table, r);
  }

  lemma {:induction false} OpenBeforeEmpty(table: seq<Request>, r: Request)
    ensures OpenBefore(table, r) == []
            <==> forall i :: 0 <= i < |table| && table[i].contract == r.contract && table[i].order < r.order ==>
                table[i].status.Terminal()
  {
    if table == [] {
    } else {
      OpenBeforeEmpty(table[1..], r);
      assert forall i :: 0 < i < |table| ==> table[i] == table[1..][i - 1];
    }
  }

  lemma {:induction false} SelectedAre(table: seq<Request>, r: Request, actor: Actor, offered: seq<Status>, to: Status)
    ensures to in Selected(table, r, actor, offered)
            <==> to in offered && CanTransitionTo(r, to) && CanActorTransition(table, r, actor, to)
  {
    if offered == [] {
    } else {
      SelectedAre(table, r, actor, offered[1..], to);
    }
  }

  /** The blockers of a request are the open requests of its contract with a smaller order. */
  lemma {:induction false} BlockersAre(table: seq<Request>, r: Request, b: Request)
    ensures b in RoutingBlockers(table, r)
            <==> b in table && b.contract == r.contract && b.order < r.order
                 && b.status !in {SIGNED, DECLINED, EXPIRED, CANCELLED}
  {
    OpenBeforeAre(table, r, b);
  }

  lemma {:induction false} OpenBeforeAre(table: seq<Request>, r: Request, b: Request)
    ensures b in OpenBefore(table, r)
            <==> b in table && b.contract == r.contract && b.order < r.order && !b.status.Terminal()
  {
    if table == [] {
    } else {
      OpenBeforeAre(table[1..], r, b);
    }
  }

  /** The lawful changes of a status, one by one. */
  ghost predicate Lawful(from: Status, to: Status) {
    from == to
    || (from, to) in {(PENDING, SENT), (PENDING, CANCELLED),
                      (SENT, VIEWED), (SENT, SIGNED), (SENT, DECLINED), (SENT, EXPIRED), (SENT, CANCELLED),
                      (VIEWED, SIGNED), (VIEWED, DECLINED), (VIEWED, EXPIRED), (VIEWED, CANCELLED)}
  }

  ghost predicate EarlierSettled(table: seq<Request>, r: Request) {
    forall j :: 0 <= j < |table| && table[j].contract == r.contract && table[j].order < r.order ==>
      table[j].status in {SIGNED, DECLINED, EXPIRED, CANCELLED}
  }

  /** The creator and the managers are entitled to every change; the signer to view, sign or decline, once every
      smaller order on the contract is settled. */
  ghost predicate Entitled(table: seq<Request>, r: Request, actor: Actor, to: Status) {
    actor.User?
    && (|| r.createdBy == Some(actor.id)
        || (r.organization.Some? && r.organization.value in actor.manages)
        || (&& to in {VIEWED, SIGNED, DECLINED}
            && Lower(Strip(r.signerEmail)) == Lower(Strip(actor.email)) != ""
            && EarlierSettled(table, r)))
  }

  lemma {:induction false} PermittedExactly(table: seq<Request>, r: Request, actor: Actor, to: Status)
    ensures CanTransitionTo(r, to) <==> Lawful(r.status, to)
    ensures CanActorTransition(table, r, actor, to) <==> Entitled(table, r, actor, to)
  {
    ReadyMeansEarlierTerminal(table, r);
  }

  /** The transitions shown to an actor are the lawful ones he or she is entitled to, except that nothing at all is
      shown to a signer whose turn has not come, even one who as creator or manager may act. */
  lemma {:induction false} ShownTransitions(table: seq<Request>, r: Request, actor: Actor, to: Status)
    ensures to in AvailableTransitions(table, r, actor)
            <==> && to != PENDING && Lawful(r.status, to) && Entitled(table, r, actor, to)
                 && (Lower(Strip(r.signerEmail)) == Lower(Strip(actor.email)) != "" ==> EarlierSettled(table, r))
  {
    SelectedAre(table, r, actor, OFFERED, to);
    PermittedExactly(table, r, actor, to);
    ReadyMeansEarlierTerminal(table, r);
    OfferedAre(to);
  }

  lemma {:induction false} OfferedAre(s: Status)
    ensures s in OFFERED <==> s != PENDING
  {
    assert OFFERED == [SENT, VIEWED, SIGNED, DECLINED, EXPIRED, CANCELLED];
    assert OFFERED[0] == SENT && OFFERED[1] == VIEWED && OFFERED[2] == SIGNED
           && OFFERED[3] == DECLINED && OFFERED[4] == EXPIRED && OFFERED[5] == CANCELLED;
  }

  function Rank(s: Status): nat {
    match s
    case PENDING => 0
    case SENT => 1
    case VIEWED => 2
    case SIGNED => 3
    case DECLINED => 4
    case EXPIRED => 5
    case CANCELLED => 6
  }

  ghost predicate Ascending(ss: seq<Status>) {
    forall i, j :: 0 <= i < j < |ss| ==> Rank(ss[i]) < Rank(ss[j])
  }

  lemma {:induction false} OfferedInOrder()
    ensures Ascending(OFFERED)
  {
    assert OFFERED == [SENT, VIEWED, SIGNED, DECLINED, EXPIRED, CANCELLED];
    forall i | 0 <= i < |OFFERED| ensures Rank(OFFERED[i]) == i + 1 {}
  }

  /** They are shown once each and in the order of their names in the source. */
  lemma {:induction false} ShownInOrder(table: seq<Request>, r: Request, actor: Actor)
    ensures Ascending(AvailableTransitions(table, r, actor))
  {
    OfferedInOrder();
    var offered := OFFERED;
    SelectedInOrder(table, r, actor, offered);
    assert AvailableTransitions(table, r, actor) in {[], Selected(table, r, actor, offered)};
  }

  lemma {:induction false} SelectedInOrder(table: seq<Request>, r: Request, actor: Actor, offered: seq<Status>)
    requires Ascending(offered)
    ensures Ascending(Selected(table, r, actor, offered))
  {
    if offered == [] {
    } else {
      var rest := Selected(table, r, actor, offered[1..]);
      SelectedInOrder(table, r, actor, offered[1..]);
      forall j | 0 <= j < |rest| ensures Rank(offered[0]) < Rank(rest[j]) {
        SelectedAre(table, r, actor, offered[1..], rest[j]);
      }
    }
  }

  // ---- runs over a fixed table ----

  /** An attempt to move request i; provider events are applied without looking at an actor. */
  datatype Attempt = Attempt(i: nat, to: Status, actor: Actor, enforceActor: bool)

  predicate Accepted(table: seq<Request>, a: Attempt) {
    a.i < |table| && CanTransitionTo(table[a.i], a.to)
    && (a.enforceActor ==> CanActorTransition(table, table[a.i], a.actor, a.to))
  }

  /** A refused attempt raises an error and leaves the table alone. */
  function Applied(table: seq<Request>, a: Attempt): (table': seq<Request>)
    ensures |table'| == |table|
  {
    if Accepted(table, a) then table[a.i := table[a.i].(status := a.to)] else table
  }

  /** An attempt goes through exactly if the change is lawful and, where an actor is looked at, the actor is entitled
      to it. It then changes the status of that request and nothing else. */
  lemma {:induction false} AttemptsDecidedExactly(table: seq<Request>, a: Attempt)
    ensures var accepted := a.i < |table| && Lawful(table[a.i].status, a.to)
                            && (a.enforceActor ==> Entitled(table, table[a.i], a.actor, a.to));
            && (Accepted(table, a) <==> accepted)
            && (forall j :: 0 <= j < |table| ==>
                  Applied(table, a)[j]
                  == if accepted && j == a.i then table[j].(status := a.to) else table[j])
  {
    if a.i < |table| { PermittedExactly(table, table[a.i], a.actor, a.to); }
  }

  function After(table: seq<Request>, run: seq<Attempt>, n: nat): (table': seq<Request>)
    requires n <= |run|
    ensures |table'| == |table|
  {
    if n == 0 then table else Applied(After(table, run, n - 1), run[n - 1])
  }

  lemma {:induction false} FieldsFixed(table: seq<Request>, run: seq<Attempt>, m: nat, n: nat)
    requires m <= n <= |run|
    ensures forall i :: 0 <= i < |table| ==>
              var before, after := After(table, run, m)[i], After(table, run, n)[i];
              after == before.(status := after.status) && (before.status.Terminal() ==> after == before)
    decreases n
  {
    if m < n { FieldsFixed(table, run, m, n - 1); }
  }

  /** Once its turn has come a request stays ready. */
  lemma {:induction false} ReadinessKept(table: seq<Request>, run: seq<Attempt>, m: nat, n: nat, i: nat)
    requires m <= n <= |run| && i < |table| && IsRoutingReady(After(table, run, m), After(table, run, m)[i])
    ensures IsRoutingReady(After(table, run, n), After(table, run, n)[i])
  {
    FieldsFixed(table, run, m, n);
    ReadyMeansEarlierTerminal(After(table, run, m), After(table, run, m)[i]);
    ReadyMeansEarlierTerminal(After(table, run, n), After(table, run, n)[i]);
  }

  /** When the signer's email alone authorises a step, all requests of smaller order on that contract
      are terminal at that step and ever after. */
  lemma {:induction false} SigningOrder(table: seq<Request>, run: seq<Attempt>, m: nat, n: nat, j: nat)
    requires m < |run| && m <= n <= |run|
    requires Accepted(After(table, run, m), run[m]) && run[m].enforceActor
    requires !CreatorOrManager(After(table, run, m)[run[m].i], run[m].actor)
    requires j < |table| && table[j].contract == table[run[m].i].contract && table[j].order < table[run[m].i].order
    ensures After(table, run, n)[j].status.Terminal()
    ensures IsSigner(table[run[m].i], run[m].actor) && run[m].to in {VIEWED, SIGNED, DECLINED}
  {
    FieldsFixed(table, run, 0, m);
    FieldsFixed(table, run, m, n);
    ReadyMeansEarlierTerminal(After(table, run, m), After(table, run, m)[run[m].i]);
  }

  // ---- progress ----

  /** No open request of the contract has a smaller order. */
  ghost predicate LowestOpen(table: seq<Request>, i: nat)
    requires i < |table|
  {
    !table[i].status.Terminal()
    && forall j :: 0 <= j < |table| && table[j].contract == table[i].contract && !table[j].status.Terminal() ==>
        table[i].order <= table[j].order
  }

  lemma {:induction false} LowestOpenExists(table: seq<Request>, contract: int, k: nat) returns (i: nat)
    requires k < |table| && table[k].contract == contract && !table[k].status.Terminal()
    ensures i < |table| && table[i].contract == contract && LowestOpen(table, i)
    decreases table[k].order
  {
    i := k;
    if !LowestOpen(table, k) {
      var j :| 0 <= j < |table| && table[j].contract == contract && !table[j].status.Terminal()
               && table[j].order < table[k].order;
      i := LowestOpenExists(table, contract, j);
    }
  }

  /** A lowest open request is ready, and its own signer can sign it exactly when it has been sent
      and carries an email address at all. */
  lemma {:induction false} LowestOpenMayBeSigned(table: seq<Request>, i: nat, signer: Actor)
    requires i < |table| && LowestOpen(table, i)
    requires signer.User? && signer.email == table[i].signerEmail && !CreatorOrManager(table[i], signer)
    ensures IsRoutingReady(table, table[i])
    ensures Accepted(table, Attempt(i, SIGNED, signer, true))
            <==> table[i].status != PENDING && Normalized(table[i].signerEmail) != ""
  {
    ReadyMeansEarlierTerminal(table, table[i]);
  }

  /** Nothing pending on the contract, every signer reachable. */
  ghost predicate Signable(table: seq<Request>, contract: int, signers: seq<Actor>) {
    && |signers| == |table|
    && (forall j :: 0 <= j < |table| ==> signers[j].User? && signers[j].email == table[j].signerEmail)
    && (forall j :: 0 <= j < |table| && table[j].contract == contract ==>
          table[j].status != PENDING && Normalized(table[j].signerEmail) != "")
  }

  ghost predicate Finished(table: seq<Request>, contract: int) {
    forall j :: 0 <= j < |table| && table[j].contract == contract ==> table[j].status.Terminal()
  }

  lemma {:induction false} NextToSign(table: seq<Request>, contract: int, signers: seq<Actor>) returns (i: nat)
    requires Signable(table, contract, signers) && !Finished(table, contract)
    ensures i < |table| && table[i].contract == contract && LowestOpen(table, i)
    ensures Accepted(table, Attempt(i, SIGNED, signers[i], true))
  {
    var k :| 0 <= k < |table| && table[k].contract == contract && !table[k].status.Terminal();
    i := LowestOpenExists(table, contract, k);
    ReadyMeansEarlierTerminal(table, table[i]);
  }

  /** Either all requests of the contract are terminal or a lowest open one can be signed by its signer now. */
  lemma {:induction false} PacketProgresses(table: seq<Request>, contract: int, signers: seq<Actor>)
    requires Signable(table, contract, signers)
    ensures Finished(table, contract)
            || exists i: nat :: i < |table| && table[i].contract == contract && LowestOpen(table, i)
                                && Accepted(table, Attempt(i, SIGNED, signers[i], true))
  {
    if !Finished(table, contract) {
      var i := NextToSign(table, contract, signers);
    }
  }

  lemma {:induction false} AfterFirst(table: seq<Request>, a: Attempt, run: seq<Attempt>, n: nat)
    requires n <= |run|
    ensures After(table, [a] + run, n + 1) == After(Applied(table, a), run, n)
  {
    if n > 0 {
      AfterFirst(table, a, run, n - 1);
    } else {
      assert After(table, [a] + run, 0) == table;
    }
  }

  /** The run ends the contract's packet, and each attempt is a signer signing his or her own request, and goes
      through. */
  ghost predicate Finishes(table: seq<Request>, contract: int, signers: seq<Actor>, run: seq<Attempt>)
    requires |signers| == |table|
  {
    && Finished(After(table, run, |run|), contract)
    && forall m :: 0 <= m < |run| ==>
         run[m].i < |table| && run[m] == Attempt(run[m].i, SIGNED, signers[run[m].i], true)
         && Accepted(After(table, run, m), run[m])
  }

  lemma {:induction false} FinishesFrom(table: seq<Request>, contract: int, signers: seq<Actor>, first: Attempt,
      rest: seq<Attempt>)
    requires |signers| == |table| && first.i < |table| && first == Attempt(first.i, SIGNED, signers[first.i], true)
    requires Accepted(table, first) && Finishes(Applied(table, first), contract, signers, rest)
    ensures Finishes(table, contract, signers, [first] + rest)
  {
    AfterFirst(table, first, rest, |rest|);
    AcceptedFirst(table, first, rest);
  }

  lemma {:induction false} AcceptedFirst(table: seq<Request>, first: Attempt, rest: seq<Attempt>)
    requires Accepted(table, first)
    requires forall m :: 0 <= m < |rest| ==> Accepted(After(Applied(table, first), rest, m), rest[m])
    ensures forall m :: 0 <= m <= |rest| ==> Accepted(After(table, [first] + rest, m), ([first] + rest)[m])
  {
    forall m | 0 <= m <= |rest| ensures Accepted(After(table, [first] + rest, m), ([first] + rest)[m]) {
      if m > 0 { AfterFirst(table, first, rest, m - 1); }
    }
  }

  lemma {:induction false} SigningKeepsSignable(table: seq<Request>, contract: int, signers: seq<Actor>, a: Attempt)
    requires Signable(table, contract, signers) && a.to == SIGNED
    ensures Signable(Applied(table, a), contract, signers)
  {
  }

  lemma {:induction false} FinishingRun(table: seq<Request>, contract: int, signers: seq<Actor>)
    returns (run: seq<Attempt>)
    requires Signable(table, contract, signers)
    ensures Finishes(table, contract, signers, run)
    decreases Work(table)
  {
    if Finished(table, contract) {
      run := [];
    } else {
      var first, after := SignNext(table, contract, signers);
      var rest := FinishingRun(after, contract, signers);
      FinishesFrom(table, contract, signers, first, rest);
      run := [first] + rest;
    }
  }

  lemma {:induction false} SignNext(table: seq<Request>, contract: int, signers: seq<Actor>)
    returns (first: Attempt, after: seq<Request>)
    requires Signable(table, contract, signers) && !Finished(table, contract)
    ensures first.i < |table| && first == Attempt(first.i, SIGNED, signers[first.i], true)
    ensures Accepted(table, first) && after == Applied(table, first)
    ensures Signable(after, contract, signers) && Work(after) < Work(table)
  {
    var i := NextToSign(table, contract, signers);
    first := Attempt(i, SIGNED, signers[i], true);
    after := Applied(table, first);
    SigningKeepsSignable(table, contract, signers, first);
    StepUsesWork(table, first);
  }

  /** The signers alone can bring such a packet to its end. */
  lemma {:induction false} PacketCanFinish(table: seq<Request>, contract: int, signers: seq<Actor>)
    requires Signable(table, contract, signers)
    ensures exists run :: Finishes(table, contract, signers, run)
  {
    var run := FinishingRun(table, contract, signers);
  }

  /** Every signer reachable, and the creator of every request still pending on the contract at hand. */
  ghost predicate Launchable(table: seq<Request>, contract: int, creators: seq<Actor>, signers: seq<Actor>) {
    && |creators| == |signers| == |table|
    && (forall j :: 0 <= j < |table| ==> signers[j].User? && signers[j].email == table[j].signerEmail)
    && (forall j :: 0 <= j < |table| && table[j].contract == contract ==> Normalized(table[j].signerEmail) != "")
    && (forall j :: 0 <= j < |table| && table[j].contract == contract && table[j].status == PENDING ==>
          creators[j].User? && table[j].createdBy == Some(creators[j].id))
  }

  /** The run ends the contract's packet, and each attempt is a creator sending or a signer signing his or her own
      request, and goes through. */
  ghost predicate Completes(table: seq<Request>, contract: int, creators: seq<Actor>, signers: seq<Actor>,
      run: seq<Attempt>)
    requires |creators| == |signers| == |table|
  {
    && Finished(After(table, run, |run|), contract)
    && forall m :: 0 <= m < |run| ==>
         run[m].i < |table| && Accepted(After(table, run, m), run[m])
         && (|| run[m] == Attempt(run[m].i, SENT, creators[run[m].i], true)
             || run[m] == Attempt(run[m].i, SIGNED, signers[run[m].i], true))
  }

  lemma {:induction false} SendNext(table: seq<Request>, contract: int, creators: seq<Actor>, signers: seq<Actor>,
      j: nat)
    returns (first: Attempt, after: seq<Request>)
    requires Launchable(table, contract, creators, signers)
    requires j < |table| && table[j].contract == contract && table[j].status == PENDING
    ensures first == Attempt(j, SENT, creators[j], true) && Accepted(table, first) && after == Applied(table, first)
    ensures Launchable(after, contract, creators, signers) && Work(after) < Work(table)
  {
    first := Attempt(j, SENT, creators[j], true);
    after := Applied(table, first);
    StepUsesWork(table, first);
  }

  lemma {:induction false} CompletesFrom(table: seq<Request>, contract: int, creators: seq<Actor>,
      signers: seq<Actor>, first: Attempt, rest: seq<Attempt>)
    requires |creators| == |signers| == |table| && first.i < |table|
    requires first == Attempt(first.i, SENT, creators[first.i], true) && Accepted(table, first)
    requires Completes(Applied(table, first), contract, creators, signers, rest)
    ensures Completes(table, contract, creators, signers, [first] + rest)
  {
    AfterFirst(table, first, rest, |rest|);
    AcceptedFirst(table, first, rest);
  }

  lemma {:induction false} CompletingRun(table: seq<Request>, contract: int, creators: seq<Actor>,
      signers: seq<Actor>)
    returns (run: seq<Attempt>)
    requires Launchable(table, contract, creators, signers)
    ensures Completes(table, contract, creators, signers, run)
    decreases Work(table)
  {
    if j: nat :| j < |table| && table[j].contract == contract && table[j].status == PENDING {
      var first, after := SendNext(table, contract, creators, signers, j);
      var rest := CompletingRun(after, contract, creators, signers);
      CompletesFrom(table, contract, creators, signers, first, rest);
      run := [first] + rest;
    } else {
      run := FinishingRun(table, contract, signers);
    }
  }

  /** The creators sending and the signers signing can bring any packet to its end. */
  lemma {:induction false} PacketCanComplete(table: seq<Request>, contract: int, creators: seq<Actor>,
      signers: seq<Actor>)
    requires Launchable(table, contract, creators, signers)
    ensures exists run :: Completes(table, contract, creators, signers, run)
  {
    var run := CompletingRun(table, contract, creators, signers);
  }

  // ---- termination ----

  function Work(table: seq<Request>): nat {
    if table == [] then 0 else table[0].status.Height() + Work(table[1..])
  }

  lemma {:induction false} WorkUpdate(table: seq<Request>, i: nat, r: Request)
    requires i < |table|
    ensures Work(table[i := r]) == Work(table) - table[i].status.Height() + r.status.Height()
  {
    if i == 0 {
      assert table[i := r][1..] == table[1..];
    } else {
      assert table[i := r][1..] == table[1..][i - 1 := r];
      WorkUpdate(table[1..], i - 1, r);
    }
  }

  lemma {:induction false} WorkBounded(table: seq<Request>)
    ensures Work(table) <= 3 * |table|
  {
    if table == [] {
    } else {
      WorkBounded(table[1..]);
    }
  }

  /** How many of the first n attempts changed a status. */
  function Changes(table: seq<Request>, run: seq<Attempt>, n: nat): nat
    requires n <= |run|
  {
    if n == 0 then 0
    else Changes(table, run, n - 1) + (if After(table, run, n) != After(table, run, n - 1) then 1 else 0)
  }

  /** A step that changes the table uses up some of the work left. */
  lemma {:induction false} StepUsesWork(table: seq<Request>, a: Attempt)
    ensures Work(Applied(table, a)) + (if Applied(table, a) != table then 1 else 0) <= Work(table)
    ensures Accepted(table, a) && a.to != table[a.i].status ==> Work(Applied(table, a)) < Work(table)
  {
    if Accepted(table, a) {
      WorkUpdate(table, a.i, table[a.i].(status := a.to));
      if table[a.i].status == a.to { assert Applied(table, a) == table; }
    }
  }

  /** A packet of n requests sees at most 3n status changes in any run; what is left shrinks with each. */
  lemma {:induction false} ChangesBounded(table: seq<Request>, run: seq<Attempt>, n: nat)
    requires n <= |run|
    ensures Changes(table, run, n) + Work(After(table, run, n)) <= Work(table) <= 3 * |table|
    decreases n
  {
    WorkBounded(table);
    if n == 0 {
    } else {
      ChangesBounded(table, run, n - 1);
      StepUsesWork(After(table, run, n - 1), run[n - 1]);
    }
  }
}
