/** Admission of sessions: the MFA gate, revocation and idle expiry. */
module SessionSecurity {
  import opened Outcomes

  type User = int
  type SessionKey = string
  type Hash = string

  /** The session's last-activity entry; an unreadable one counts as absent. */
  datatype Stamp = Absent | Seconds(at: int) | Unreadable

  /** `verified`: the MFA challenge has been passed in this session. */
  datatype Session = Session(user: User, verified: bool, counter: Option<int>, lastActivity: Stamp)

  /** Everything the admission decision depends on. `issued` are all keys ever given out:
      a flushed session's key never comes back. `enrolled` are the users whose MFA is enabled and verified. */
  datatype World = World(
    sessions: map<SessionKey, Session>,
    issued: set<SessionKey>,
    counters: map<User, int>,
    enrolled: set<User>,
    recoveryCodes: map<User, seq<Hash>>)
  {
    /** UserProfile.objects.get_or_create: a missing profile starts at 0. */
    function Counter(u: User): int {
      if u in counters then counters[u] else 0
    }

    function Codes(u: User): seq<Hash> {
      if u in recoveryCodes then recoveryCodes[u] else []
    }

    /** A session's recorded counter never exceeds its user's. */
    ghost predicate Valid() {
      && sessions.Keys <= issued
      && forall key :: key in sessions && sessions[key].counter.Some? ==>
           sessions[key].counter.value <= Counter(sessions[key].user)
    }
  }

  /** A request: its session, whether its path is exempt from the MFA gate, whether the organisation requires MFA,
      the clock, the organisation's idle setting (0 or none: the default applies) and whether idle expiry is forced. */
  datatype Visit = Visit(
    key: SessionKey, exempt: bool, mfaRequired: bool, now: int,
    orgMinutes: Option<nat>, defaultMinutes: nat, forceIdle: bool)
  {
    function IdleSeconds(): nat {
      60 * (if orgMinutes.Some? && orgMinutes.value != 0 then orgMinutes.value else defaultMinutes)
    }
  }

  datatype Verdict = Anonymous | EnrollRedirect | ChallengeRedirect | LoginRedirect | Admitted

  // ---- specification on values ----

  function LastActivity(s: Session, v: Visit): Option<int> {
    if v.forceIdle then Some(v.now - (v.IdleSeconds() + 5))
    else if s.lastActivity.Seconds? then Some(s.lastActivity.at) else None
  }

  /** The MFA gate's redirect, if any. */
  function Gate(w: World, v: Visit, s: Session): (redirect: Option<Verdict>)
    ensures redirect.None? <==> v.exempt || !v.mfaRequired || (s.user in w.enrolled && s.verified)
  {
    if v.exempt || !v.mfaRequired then None
    else if s.user !in w.enrolled then Some(EnrollRedirect)
    else if !s.verified then Some(ChallengeRedirect)
    else None
  }

  function Judge(w: World, v: Visit): Verdict {
    if v.key !in w.sessions then Anonymous
    else
      var s := w.sessions[v.key];
      if Gate(w, v, s).Some? then Gate(w, v, s).value
      else
      var last := LastActivity(s, v);
      if s.counter.Some? && s.counter.value != w.Counter(s.user) then LoginRedirect
      else if last.Some? && v.now - last.value > v.IdleSeconds() then LoginRedirect
      else Admitted
  }

  function Visited(w: World, v: Visit): World {
    match Judge(w, v)
    case LoginRedirect => w.(sessions := w.sessions - {v.key})
    case Admitted =>
      var s := w.sessions[v.key];
      w.(sessions := w.sessions[v.key := s.(counter := Some(w.Counter(s.user)), lastActivity := Seconds(v.now))])
    case _ => w
  }

  function Revoked(w: World, u: User): World {
    w.(counters := w.counters[u := w.Counter(u) + 1])
  }

  function AllRevoked(w: World, members: seq<User>): World {
    if members == [] then w else Revoked(AllRevoked(w, members[..|members| - 1]), members[|members| - 1])
  }

  function Without(codes: seq<Hash>, h: Hash): seq<Hash> {
    if codes == [] then []
    else Without(codes[..|codes| - 1], h) + (if codes[|codes| - 1] == h then [] else [codes[|codes| - 1]])
  }

  /** A blank code has no hash. */
  function Consumes(w: World, u: User, hash: Option<Hash>): bool {
    hash.Some? && hash.value in w.Codes(u)
  }

  function Consumed(w: World, u: User, hash: Option<Hash>): World {
    if Consumes(w, u, hash) then
      Revoked(w.(recoveryCodes := w.recoveryCodes[u := Without(w.Codes(u), hash.value)]), u)
    else w
  }

  // ---- the code, over mutable state ----

  class Store {
    var sessions: map<SessionKey, Session>
    var counters: map<User, int>
    var enrolled: set<User>
    var recoveryCodes: map<User, seq<Hash>>
    ghost var issued: set<SessionKey>

    ghost function Now(): World
      reads this
    {
      World(sessions, issued, counters, enrolled, recoveryCodes)
    }

    method Counter(u: User) returns (n: int)
      ensures n == Now().Counter(u)
    {
      n := if u in counters then counters[u] else 0;
    }

    method MfaGateRedirect(v: Visit, session: Session) returns (redirect: Option<Verdict>)
      ensures redirect == Gate(Now(), v, session)
      ensures redirect.None? <==> v.exempt || !v.mfaRequired || (session.user in enrolled && session.verified)
      ensures redirect.Some? ==>
                redirect.value == if session.user in enrolled then ChallengeRedirect else EnrollRedirect
    {
      if v.exempt { return None; }
      if !v.mfaRequired { return None; }
      if session.user !in enrolled { return Some(EnrollRedirect); }
      if !session.verified { return Some(ChallengeRedirect); }
      return None;
    }

    method Handle(v: Visit) returns (verdict: Verdict)
      modifies this`sessions
      ensures verdict == Judge(old(Now()), v) && Now() == Visited(old(Now()), v)
    {
      if v.key !in sessions {
        return Anonymous;
      }
      var session := sessions[v.key];
      var redirect := MfaGateRedirect(v, session);
      if redirect.Some? {
        return redirect.value;
      }
      var current := Counter(session.user);
      if session.counter.None? {
        session := session.(counter := Some(current));
      } else if session.counter.value != current {
        sessions := sessions - {v.key};
        return LoginRedirect;
      }
      if v.forceIdle {
        session := session.(lastActivity := Seconds(v.now - (v.IdleSeconds() + 5)));
      }
      if session.lastActivity.Seconds? && v.now - session.lastActivity.at > v.IdleSeconds() {
        sessions := sessions - {v.key};
        return LoginRedirect;
      }
      session := session.(lastActivity := Seconds(v.now));
      sessions := sessions[v.key := session];
      return Admitted;
    }

    method RevokeUserSessions(u: User) returns (counter: int)
      modifies this`counters
      ensures Now() == Revoked(old(Now()), u) && counter == Now().Counter(u)
    {
      counter := Counter(u);
      counter := counter + 1;
      counters := counters[u := counter];
    }

    /** members: the users with an active membership. */
    method RevokeOrganizationSessions(members: seq<User>) returns (affected: seq<User>)
      modifies this`counters
      ensures Now() == AllRevoked(old(Now()), members) && affected == members
    {
      affected := [];
      for i := 0 to |members|
        invariant affected == members[..i]
        invariant Now() == AllRevoked(old(Now()), members[..i])
      {
        assert members[..i + 1][..i] == members[..i];
        var _ := RevokeUserSessions(members[i]);
        affected := affected + [members[i]];
      }
      assert members[..|members|] == members;
    }

    method VerifyRecoveryCode(u: User, hash: Option<Hash>) returns (ok: bool)
      modifies this`counters, this`recoveryCodes
      ensures ok == Consumes(old(Now()), u, hash) && Now() == Consumed(old(Now()), u, hash)
    {
      var codes := if u in recoveryCodes then recoveryCodes[u] else [];
      if hash.None? || hash.value !in codes {
        return false;
      }
      var kept: seq<Hash> := [];
      for i := 0 to |codes|
        invariant kept == Without(codes[..i], hash.value)
      {
        assert codes[..i + 1][..i] == codes[..i];
        if codes[i] != hash.value {
          kept := kept + [codes[i]];
        }
      }
      assert codes[..|codes|] == codes;
      recoveryCodes := recoveryCodes[u := kept];
      var _ := RevokeUserSessions(u);
      return true;
    }
  }

  // ---- the decision, in the source's own terms ----

  /** Every visit, decided: who is let through, who is sent where, and what becomes of the session. */
  lemma {:induction false} VisitsDecidedExactly(w: World, v: Visit)
    ensures v.key !in w.sessions ==> Judge(w, v) == Anonymous && Visited(w, v) == w
    ensures v.key in w.sessions ==>
              var s := w.sessions[v.key];
              var own := v.orgMinutes.Some? && v.orgMinutes.value > 0;
              var minutes := if own then v.orgMinutes.value else v.defaultMinutes;
              var current := if s.user in w.counters then w.counters[s.user] else 0;
              var through := v.exempt || !v.mfaRequired || (s.user in w.enrolled && s.verified);
              var idle := v.forceIdle || (s.lastActivity.Seconds? && v.now > s.lastActivity.at + 60 * minutes);
              var welcome := (s.counter.Some? ==> s.counter.value == current) && !idle;
              && (Judge(w, v) == Admitted <==> through && welcome)
              && (Judge(w, v) == LoginRedirect <==> through && !welcome)
              && (Judge(w, v) == EnrollRedirect <==> !through && s.user !in w.enrolled)
              && (Judge(w, v) == ChallengeRedirect <==> !through && s.user in w.enrolled)
              && Visited(w, v) == w.(sessions :=
                   if !through then w.sessions
                   else if welcome then w.sessions[v.key := Session(s.user, s.verified, Some(current), Seconds(v.now))]
                   else w.sessions - {v.key})
  {
  }

  // ---- runs ----

  /** The views that mark a session as verified, apart from the use of a recovery code. */
  datatype Proof = OneTimeCode | Enrolment | IdentityProvider

  datatype Event =
    | Login(key: SessionKey, user: User)
    | Request(visit: Visit)
    | Logout(key: SessionKey)
    | RevokeUser(user: User)
    | RevokeOrganization(members: seq<User>)
    | UseRecoveryCode(user: User, hash: Option<Hash>, key: SessionKey)
    | MarkVerified(key: SessionKey, how: Proof)
    | DemandChallenge(key: SessionKey)
    | SetEnrolled(user: User, enrolled: bool)
    | IssueRecoveryCodes(user: User, hashes: seq<Hash>)

  function Marked(w: World, key: SessionKey, verified: bool): World {
    if key in w.sessions then w.(sessions := w.sessions[key := w.sessions[key].(verified := verified)]) else w
  }

  /** A login only ever gets a key that was never issued before. A recovery code is used within a session,
      which then counts as verified. */
  function Step(w: World, e: Event): World {
    match e
    case Login(key, u) =>
      if key in w.issued then w
      else w.(sessions := w.sessions[key := Session(u, false, None, Absent)], issued := w.issued + {key})
    case Request(v) => Visited(w, v)
    case Logout(key) => w.(sessions := w.sessions - {key})
    case RevokeUser(u) => Revoked(w, u)
    case RevokeOrganization(members) => AllRevoked(w, members)
    case UseRecoveryCode(u, hash, key) => if Consumes(w, u, hash) then Marked(Consumed(w, u, hash), key, true) else w
    case MarkVerified(key, _) => Marked(w, key, true)
    case DemandChallenge(key) => Marked(w, key, false)
    case SetEnrolled(u, enrolled) => w.(enrolled := if enrolled then w.enrolled + {u} else w.enrolled - {u})
    case IssueRecoveryCodes(u, hashes) => w.(recoveryCodes := w.recoveryCodes[u := hashes])
  }

  /** The state before event n of the run. */
  function At(w: World, es: seq<Event>, n: nat): World
    requires n <= |es|
  {
    if n == 0 then w else Step(At(w, es, n - 1), es[n - 1])
  }

  ghost predicate AdmittedAt(w: World, es: seq<Event>, n: nat, key: SessionKey)
    requires n < |es|
  {
    es[n].Request? && es[n].visit.key == key && Judge(At(w, es, n), es[n].visit) == Admitted
  }

  predicate Revokes(w: World, e: Event, u: User) {
    match e
    case RevokeUser(v) => v == u
    case RevokeOrganization(members) => u in members
    case UseRecoveryCode(v, hash, _) => v == u && Consumes(w, v, hash)
    case _ => false
  }

  ghost predicate RevokedAt(w: World, es: seq<Event>, n: nat, u: User)
    requires n < |es|
  {
    Revokes(At(w, es, n), es[n], u)
  }

  lemma {:induction false} AllRevokedCounts(w: World, members: seq<User>, u: User)
    ensures var w' := AllRevoked(w, members);
            && w' == w.(counters := w'.counters)
            && w'.Counter(u) >= w.Counter(u) + (if u in members then 1 else 0)
            && (u !in members ==> w'.Counter(u) == w.Counter(u))
  {
    if members == [] {
    } else {
      AllRevokedCounts(w, members[..|members| - 1], u);
      assert members == members[..|members| - 1] + [members[|members| - 1]];
    }
  }

  lemma {:induction false} StepCounts(w: World, e: Event, u: User)
    ensures Step(w, e).Counter(u) >= w.Counter(u)
    ensures Revokes(w, e, u) <==> Step(w, e).Counter(u) > w.Counter(u)
    ensures w.issued <= Step(w, e).issued
  {
    match e
    case RevokeOrganization(members) => AllRevokedCounts(w, members, u);
    case _ =>
  }

  /** Session `key`, if it still exists, belongs to u and was last admitted under counter c. */
  ghost predicate Tied(w: World, key: SessionKey, u: User, c: int) {
    w.Valid() && key in w.issued
    && (key in w.sessions ==> w.sessions[key].user == u && w.sessions[key].counter == Some(c))
  }

  lemma {:induction false} StepKeepsTied(w: World, e: Event, key: SessionKey, u: User, c: int)
    requires Tied(w, key, u, c)
    ensures Tied(Step(w, e), key, u, c)
  {
    StepKeepsValid(w, e);
    if e.RevokeOrganization? { AllRevokedCounts(w, e.members, u); }
  }

  lemma {:induction false} StepKeepsValid(w: World, e: Event)
    requires w.Valid()
    ensures Step(w, e).Valid()
  {
    forall u ensures Step(w, e).Counter(u) >= w.Counter(u) { StepCounts(w, e, u); }
    if e.RevokeOrganization? { AllRevokedCounts(w, e.members, 0); }
  }

  /** A session once admitted is gone later or still carries the counter of that admission. */
  lemma {:induction false} AfterAdmission(w: World, es: seq<Event>, i: nat, n: nat, key: SessionKey)
    requires i < n <= |es| && w.Valid() && AdmittedAt(w, es, i, key)
    ensures var u := At(w, es, i).sessions[key].user;
            Tied(At(w, es, n), key, u, At(w, es, i).Counter(u))
    decreases n
  {
    var u := At(w, es, i).sessions[key].user;
    if n - 1 > i {
      AfterAdmission(w, es, i, n - 1, key);
      StepKeepsTied(At(w, es, n - 1), es[n - 1], key, u, At(w, es, i).Counter(u));
    } else {
      RunValid(w, es, i);
    }
  }

  /** A user's counter never falls, and rises between two points of a run exactly if the user's sessions were
      revoked between them. */
  lemma {:induction false} CounterTellsRevocations(w: World, es: seq<Event>, i: nat, n: nat, u: User)
    requires i <= n <= |es|
    ensures At(w, es, i).Counter(u) <= At(w, es, n).Counter(u)
    ensures At(w, es, i).Counter(u) < At(w, es, n).Counter(u)
            <==> exists m :: i <= m < n && RevokedAt(w, es, m, u)
    decreases n
  {
    if i < n {
      CounterTellsRevocations(w, es, i, n - 1, u);
      StepCounts(At(w, es, n - 1), es[n - 1], u);
      assert RevokedAt(w, es, n - 1, u) <==> At(w, es, n - 1).Counter(u) < At(w, es, n).Counter(u);
    }
  }

  lemma {:induction false} RunValid(w: World, es: seq<Event>, n: nat)
    requires w.Valid() && n <= |es|
    ensures At(w, es, n).Valid()
  {
    if n == 0 {
    } else {
      RunValid(w, es, n - 1);
      StepKeepsValid(At(w, es, n - 1), es[n - 1]);
    }
  }

  /** If one session is admitted at two steps, no revocation of its user lies between them. */
  lemma {:induction false} AdmittedTwiceMeansUnrevoked(w: World, es: seq<Event>, i: nat, m: nat, j: nat,
      key: SessionKey)
    requires i < m < j < |es| && w.Valid()
    requires AdmittedAt(w, es, i, key) && AdmittedAt(w, es, j, key)
    ensures At(w, es, j).sessions[key].user == At(w, es, i).sessions[key].user
    ensures !RevokedAt(w, es, m, At(w, es, i).sessions[key].user)
  {
    AfterAdmission(w, es, i, j, key);
    CounterTellsRevocations(w, es, i, j, At(w, es, i).sessions[key].user);
  }

  /** Between consecutive admissions of a session at most the idle limit then in force has passed. */
  lemma {:induction false} AdmissionGapWithinIdleLimit(w: World, es: seq<Event>, i: nat, j: nat, key: SessionKey)
    requires i < j < |es| && w.Valid()
    requires AdmittedAt(w, es, i, key) && AdmittedAt(w, es, j, key)
    requires forall m :: i < m < j ==> !AdmittedAt(w, es, m, key)
    ensures es[j].visit.now - es[i].visit.now <= es[j].visit.IdleSeconds()
  {
    LastActivityKept(w, es, i, j, key);
  }

  lemma {:induction false} LastActivityKept(w: World, es: seq<Event>, i: nat, n: nat, key: SessionKey)
    requires i < n <= |es| && w.Valid() && AdmittedAt(w, es, i, key)
    requires forall m :: i < m < n ==> !AdmittedAt(w, es, m, key)
    ensures key in At(w, es, n).sessions ==> At(w, es, n).sessions[key].lastActivity == Seconds(es[i].visit.now)
    decreases n
  {
    if n - 1 > i {
      LastActivityKept(w, es, i, n - 1, key);
      AfterAdmission(w, es, i, n - 1, key);
      assert !AdmittedAt(w, es, n - 1, key);
      OnlyAdmissionChanges(At(w, es, n - 1), es[n - 1], key);
    }
  }

  /** Apart from being admitted, an issued session can only go, or change its MFA mark. */
  lemma {:induction false} OnlyAdmissionChanges(w: World, e: Event, key: SessionKey)
    requires key in w.issued
    requires !(e.Request? && e.visit.key == key && Judge(w, e.visit) == Admitted)
    ensures key in Step(w, e).sessions ==>
              key in w.sessions && Step(w, e).sessions[key].(verified := w.sessions[key].verified) == w.sessions[key]
  {
    if e.RevokeOrganization? { AllRevokedCounts(w, e.members, 0); }
  }

  /** A session that is not admitted can only go, or change its MFA mark. */
  lemma {:induction false} Unadmitted(w: World, es: seq<Event>, i: nat, n: nat, key: SessionKey)
    requires i <= n <= |es| && w.Valid() && key in At(w, es, i).sessions
    requires forall m :: i <= m < n ==> !AdmittedAt(w, es, m, key)
    ensures key in At(w, es, n).issued
    ensures key in At(w, es, n).sessions ==>
              var s := At(w, es, i).sessions[key];
              At(w, es, n).sessions[key] == s.(verified := At(w, es, n).sessions[key].verified)
    decreases n
  {
    RunValid(w, es, i);
    if i == n {
    } else {
      Unadmitted(w, es, i, n - 1, key);
      assert !AdmittedAt(w, es, n - 1, key);
      OnlyAdmissionChanges(At(w, es, n - 1), es[n - 1], key);
      StepCounts(At(w, es, n - 1), es[n - 1], 0);
    }
  }

  /** An admitted session that is alive at its next visit, gets past the MFA gate, and whose user was not revoked
      in between is admitted again exactly if the visit comes within the idle limit. */
  lemma {:induction false} ReadmittedExactly(w: World, es: seq<Event>, i: nat, j: nat, key: SessionKey)
    requires i < j < |es| && w.Valid() && AdmittedAt(w, es, i, key) && key in At(w, es, j).sessions
    requires es[j].Request? && es[j].visit.key == key
    requires forall m :: i < m < j ==> !AdmittedAt(w, es, m, key)
    requires forall m :: i < m < j ==> !RevokedAt(w, es, m, At(w, es, i).sessions[key].user)
    ensures var s, v := At(w, es, j).sessions[key], es[j].visit;
            var own := v.orgMinutes.Some? && v.orgMinutes.value > 0;
            var minutes := if own then v.orgMinutes.value else v.defaultMinutes;
            v.exempt || !v.mfaRequired || (s.user in At(w, es, j).enrolled && s.verified) ==>
              (AdmittedAt(w, es, j, key) <==> !v.forceIdle && v.now <= es[i].visit.now + 60 * minutes)
  {
    var u := At(w, es, i).sessions[key].user;
    AfterAdmission(w, es, i, j, key);
    LastActivityKept(w, es, i, j, key);
    CounterTellsRevocations(w, es, i, j, u);
    assert forall m :: i <= m < j ==> !RevokedAt(w, es, m, u);
    VisitsDecidedExactly(At(w, es, j), es[j].visit);
  }

  /** The first visit after a login, however late and whatever was revoked since: a session that is alive and gets
      past the MFA gate is let in, unless idle expiry is forced. */
  lemma {:induction false} FirstVisitExactly(w: World, es: seq<Event>, i: nat, j: nat, key: SessionKey, u: User)
    requires i < j < |es| && w.Valid() && es[i] == Login(key, u) && key !in At(w, es, i).issued
    requires es[j].Request? && es[j].visit.key == key && key in At(w, es, j).sessions
    requires forall m :: i < m < j ==> !AdmittedAt(w, es, m, key)
    ensures var s, v := At(w, es, j).sessions[key], es[j].visit;
            && s.user == u
            && (v.exempt || !v.mfaRequired || (u in At(w, es, j).enrolled && s.verified) ==>
                  (AdmittedAt(w, es, j, key) <==> !v.forceIdle))
  {
    assert At(w, es, i + 1).sessions[key] == Session(u, false, None, Absent);
    Unadmitted(w, es, i + 1, j, key);
    VisitsDecidedExactly(At(w, es, j), es[j].visit);
  }

  /** A session ends exactly by a logout or by a visit that is sent to the login page. */
  lemma {:induction false} SessionsEndExactly(w: World, e: Event, key: SessionKey)
    requires key in w.sessions
    ensures key !in Step(w, e).sessions
            <==> e == Logout(key) || (e.Request? && e.visit.key == key && Judge(w, e.visit) == LoginRedirect)
  {
    if e.RevokeOrganization? { AllRevokedCounts(w, e.members, 0); }
  }

  /** How often one event revokes a user's sessions. */
  function RevokedBy(w: World, e: Event, u: User): nat {
    match e
    case RevokeUser(v) => if v == u then 1 else 0
    case RevokeOrganization(members) => multiset(members)[u]
    case UseRecoveryCode(v, hash, _) => if v == u && Consumes(w, v, hash) then 1 else 0
    case _ => 0
  }

  /** How often a user's sessions are revoked in the first n events. */
  function Revocations(w: World, es: seq<Event>, n: nat, u: User): nat
    requires n <= |es|
  {
    if n == 0 then 0 else Revocations(w, es, n - 1, u) + RevokedBy(At(w, es, n - 1), es[n - 1], u)
  }

  lemma {:induction false} AllRevokedAdd(w: World, members: seq<User>, u: User)
    ensures AllRevoked(w, members).Counter(u) == w.Counter(u) + multiset(members)[u]
  {
    if members == [] {
    } else {
      AllRevokedAdd(w, members[..|members| - 1], u);
      assert members == members[..|members| - 1] + [members[|members| - 1]];
    }
  }

  lemma {:induction false} StepAddsRevocations(w: World, e: Event, u: User)
    ensures Step(w, e).Counter(u) == w.Counter(u) + RevokedBy(w, e, u)
  {
    if e.RevokeOrganization? { AllRevokedAdd(w, e.members, u); }
  }

  /** The counter counts: one for each revocation, as often as the user is a member. */
  lemma {:induction false} CounterCountsRevocations(w: World, es: seq<Event>, n: nat, u: User)
    requires n <= |es|
    ensures At(w, es, n).Counter(u) == w.Counter(u) + Revocations(w, es, n, u)
  {
    if n == 0 {
    } else {
      CounterCountsRevocations(w, es, n - 1, u);
      StepAddsRevocations(At(w, es, n - 1), es[n - 1], u);
    }
  }

  /** What a revocation reaches: however much later a session of the user is next admitted, if at all, it had no
      counter on record when the revocation came; it is alive, passes the MFA gate and is not idle. */
  lemma {:induction false} RevocationReach(w: World, es: seq<Event>, i: nat, j: nat, key: SessionKey)
    requires i < j < |es| && w.Valid() && key in At(w, es, i).sessions
    requires RevokedAt(w, es, i, At(w, es, i).sessions[key].user)
    requires es[j].Request? && es[j].visit.key == key
    requires forall m :: i < m < j ==> !AdmittedAt(w, es, m, key)
    ensures var s, now, v := At(w, es, i).sessions[key], At(w, es, j), es[j].visit;
            var last := LastActivity(s, v);
            AdmittedAt(w, es, j, key)
            <==> && s.counter.None? && key in now.sessions && Gate(now, v, now.sessions[key]).None?
                 && !(last.Some? && v.now - last.value > v.IdleSeconds())
  {
    var u := At(w, es, i).sessions[key].user;
    RunValid(w, es, i);
    Unadmitted(w, es, i, j, key);
    CounterTellsRevocations(w, es, i, j, u);
    assert At(w, es, i).Counter(u) < At(w, es, j).Counter(u);
  }

  /** A session with a counter on record is never admitted again after a revocation of its user. */
  lemma {:induction false} RevokedForGood(w: World, es: seq<Event>, i: nat, j: nat, key: SessionKey)
    requires i < j < |es| && w.Valid() && key in At(w, es, i).sessions && At(w, es, i).sessions[key].counter.Some?
    requires RevokedAt(w, es, i, At(w, es, i).sessions[key].user)
    ensures !AdmittedAt(w, es, j, key)
    decreases j
  {
    forall m | i < m < j ensures !AdmittedAt(w, es, m, key) { RevokedForGood(w, es, i, m, key); }
    if es[j].Request? && es[j].visit.key == key { RevocationReach(w, es, i, j, key); }
  }

  // ---- the MFA gate over runs ----

  /** Event m proves the second factor in session `key`: by a one-time code, by enrolling, by the assurance of the
      identity provider, or by a recovery code. */
  ghost predicate ProvedAt(w: World, es: seq<Event>, m: nat, key: SessionKey)
    requires m < |es|
  {
    (es[m].MarkVerified? && es[m].key == key)
    || (es[m].UseRecoveryCode? && es[m].key == key && Consumes(At(w, es, m), es[m].user, es[m].hash))
  }

  /** Event m proves the second factor, and no new proof is demanded before event n. */
  ghost predicate ProvedSince(w: World, es: seq<Event>, m: nat, n: nat, key: SessionKey)
    requires m < n <= |es|
  {
    ProvedAt(w, es, m, key) && forall k :: m < k < n ==> es[k] != DemandChallenge(key)
  }

  /** While a session lives it is marked exactly if a proof was given since the login and not demanded again. */
  lemma {:induction false} MarkedMeansProved(w: World, es: seq<Event>, i: nat, n: nat, key: SessionKey, u: User)
    requires i < n <= |es| && w.Valid() && es[i] == Login(key, u) && key !in At(w, es, i).issued
    ensures key in At(w, es, n).issued
    ensures key in At(w, es, n).sessions ==>
              At(w, es, n).sessions[key].user == u
              && (At(w, es, n).sessions[key].verified <==> exists m :: i < m < n && ProvedSince(w, es, m, n, key))
    decreases n
  {
    if n - 1 > i {
      MarkedMeansProved(w, es, i, n - 1, key, u);
      StepMarks(At(w, es, n - 1), es[n - 1], key);
      if ProvedAt(w, es, n - 1, key) {
        assert ProvedSince(w, es, n - 1, n, key);
      } else if es[n - 1] == DemandChallenge(key) {
        assert forall m :: i < m < n ==> !ProvedSince(w, es, m, n, key);
      } else {
        if m :| i < m < n && ProvedSince(w, es, m, n, key) {
          assert ProvedSince(w, es, m, n - 1, key);
        }
        var before := n - 1;
        if m :| i < m < before && ProvedSince(w, es, m, before, key) {
          assert ProvedSince(w, es, m, n, key);
        }
      }
    }
  }

  lemma {:induction false} StepMarks(w: World, e: Event, key: SessionKey)
    requires key in w.issued
    ensures key in Step(w, e).issued
    ensures key in Step(w, e).sessions ==>
              key in w.sessions && Step(w, e).sessions[key].user == w.sessions[key].user
              && Step(w, e).sessions[key].verified
                 == if e.MarkVerified? && e.key == key then true
                    else if e.UseRecoveryCode? && e.key == key && Consumes(w, e.user, e.hash) then true
                    else if e == DemandChallenge(key) then false
                    else w.sessions[key].verified
  {
    if e.RevokeOrganization? { AllRevokedCounts(w, e.members, 0); }
  }

  /** In an organisation that requires MFA, no session gets beyond the exempt pages unless its user is enrolled
      and a proof was given after the login and not demanded again. */
  lemma {:induction false} AdmissionNeedsProof(w: World, es: seq<Event>, i: nat, j: nat, key: SessionKey, u: User)
    requires i < j < |es| && w.Valid() && es[i] == Login(key, u) && key !in At(w, es, i).issued
    requires AdmittedAt(w, es, j, key) && es[j].visit.mfaRequired && !es[j].visit.exempt
    ensures u in At(w, es, j).enrolled && exists m :: i < m < j && ProvedSince(w, es, m, j, key)
  {
    MarkedMeansProved(w, es, i, j, key, u);
  }

  /** Passing the challenge with a recovery code does not let the session in: using the code revokes the user's
      sessions, this one included, because the challenge page itself put the old counter on its record.
      The session counts as verified, yet its next visit goes to the login page. */
  lemma {:induction false} RecoveryCodeEndsItsOwnSession(w: World, page: Visit, hash: Hash, next: Visit)
    requires page.exempt && Judge(w, page) == Admitted
    requires Consumes(Visited(w, page), w.sessions[page.key].user, Some(hash))
    requires next.key == page.key && w.sessions[page.key].user in w.enrolled
    ensures var after := Step(Visited(w, page), UseRecoveryCode(w.sessions[page.key].user, Some(hash), page.key));
            after.sessions[page.key].verified && Judge(after, next) == LoginRedirect
  {
  }

  /** Nor does the session that used the code ever get in again, in any run. */
  lemma {:induction false} RecoveryCodeLocksItsSessionOut(w: World, es: seq<Event>, i: nat, m: nat, j: nat,
      key: SessionKey)
    requires i < m < j < |es| && w.Valid() && AdmittedAt(w, es, i, key)
    requires es[m].UseRecoveryCode? && es[m].key == key && es[m].user == At(w, es, i).sessions[key].user
    requires Consumes(At(w, es, m), es[m].user, es[m].hash)
    ensures !AdmittedAt(w, es, j, key)
  {
    if AdmittedAt(w, es, j, key) {
      AdmittedTwiceMeansUnrevoked(w, es, i, m, j, key);
      assert false;
    }
  }

  /** A recovery code works once: after it was consumed, and until new codes are issued, it is refused. */
  lemma {:induction false} RecoveryCodeWorksOnce(w: World, es: seq<Event>, i: nat, j: nat, u: User, hash: Hash)
    requires i < j < |es|
    requires es[i].UseRecoveryCode? && es[i].user == u && es[i].hash == Some(hash)
    requires Consumes(At(w, es, i), u, Some(hash))
    requires forall m :: i < m < j ==> !(es[m].IssueRecoveryCodes? && es[m].user == u)
    ensures !Consumes(At(w, es, j), u, Some(hash))
    decreases j
  {
    if j - 1 == i {
      WithoutContains(At(w, es, i).Codes(u), hash, hash);
    } else {
      RecoveryCodeWorksOnce(w, es, i, j - 1, u, hash);
      CodesNeverReturn(At(w, es, j - 1), es[j - 1], u, hash);
    }
  }

  /** Nothing but issuing new codes brings a code back. */
  lemma {:induction false} CodesNeverReturn(w: World, e: Event, u: User, hash: Hash)
    requires hash !in w.Codes(u) && !(e.IssueRecoveryCodes? && e.user == u)
    ensures hash !in Step(w, e).Codes(u)
  {
    match e
    case UseRecoveryCode(v, h, _) => if h.Some? { WithoutContains(w.Codes(v), h.value, hash); }
    case RevokeOrganization(members) => AllRevokedCounts(w, members, u);
    case _ =>
  }

  /** Consuming a code removes its hash wherever it stands and no other, and the others keep their order. */
  lemma {:induction false} ConsumingRemovesTheCode(a: seq<Hash>, c: Hash, b: seq<Hash>, h: Hash)
    ensures Without(a + ([c] + b), h) == Without(a, h) + ((if c == h then [] else [c]) + Without(b, h))
  {
    WithoutConcat(a, [c] + b, h);
    WithoutConcat([c], b, h);
    assert [c][..0] == [] && Without([], h) == [];
  }

  lemma {:induction false} WithoutConcat(a: seq<Hash>, b: seq<Hash>, h: Hash)
    ensures Without(a + b, h) == Without(a, h) + Without(b, h)
  {
    if b == [] {
      assert a + b == a;
    } else {
      assert (a + b)[..|a + b| - 1] == a + b[..|b| - 1];
      WithoutConcat(a, b[..|b| - 1], h);
    }
  }

  lemma {:induction false} WithoutContains(codes: seq<Hash>, h: Hash, x: Hash)
    ensures x in Without(codes, h) <==> x in codes && x != h
  {
    if codes == [] {
    } else {
      WithoutContains(codes[..|codes| - 1], h, x);
      assert codes == codes[..|codes| - 1] + [codes[|codes| - 1]];
    }
  }
}
