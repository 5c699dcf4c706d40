/** Many workers serving one client on one route at once, each cache operation one atomic step at a time of its own.
    The runs about which bounds are proved lie inside one window, up to the first login that succeeds: the
    counter exists as a number and both keys are live. */
module AuthRateLimitConcurrent {
  import opened Outcomes
  import opened AuthRateLimit

  /** How far a worker has come with its request. */
  datatype Phase =
    | Arrived
    | CounterRead(now: int, raw: Option<Count>)
    | LoadDone(now: int, count: int, resetAt: int)
    | ViewDone(now: int, resetAt: int)
    | ResetAdded(now: int, resetAt: int)
    | CounterReread(now: int, resetAt: int, seen: Option<Count>)
    | Answered(answer: Answer, counted: bool)

  /** views[w] is the status the view gives to worker w's request. */
  datatype System = System(route: Route, slots: Slots, phases: seq<Phase>, policy: Policy, views: seq<int>)

  datatype Step = Step(worker: nat, at: real)

  function Refusal(resetAt: int, now: int): Answer {
    TooMany(Max(resetAt - now, 1))
  }

  /** The counter after it was seen as `seen` and is then counted up: incr, or a fresh write where there was no
      number to increment, or where it has vanished since. */
  function CountedUp(slot: Option<Entry<Count>>, seen: Option<Count>, ttl: int, at: real): (counter: Entry<Count>)
    ensures counter.value.Number?
  {
    match seen
    case None => Fresh(Number(1), ttl, at).value
    case Some(Legacy(count, _)) => Fresh(Number(count + 1), ttl, at).value
    case Some(Number(n)) =>
      var bumped := Bumped(slot, at);
      if bumped.Some? then bumped.value else Fresh(Number(n + 1), ttl, at).value
  }

  /** The next atomic operation of a worker in phase `p`. */
  function Advance(p: Phase, slots: Slots, route: Route, policy: Policy, status: int, at: real): (Phase, Slots) {
    match p
    case Arrived => (CounterRead(at.Floor, Peek(slots.counter, at)), slots)
    case CounterRead(now, Some(Legacy(count, resetAt))) =>
      var end := if resetAt == 0 then now + policy.window else resetAt;
      if now >= end then (LoadDone(now, 0, now + policy.window), Slots(None, None))
      else (LoadDone(now, count, end), slots)
    case CounterRead(now, raw) =>
      var reset := Peek(slots.reset, at);
      var live := reset.Some? && now < reset.value;
      (LoadDone(now, if live && raw.Some? && raw.value.Number? then raw.value.n else 0,
                if live then reset.value else now + policy.window), slots)
    case LoadDone(now, count, resetAt) =>
      if route == Login && status == 302 then (Answered(Viewed(302), false), Slots(None, None))
      else if count >= policy.limit then (Answered(Refusal(resetAt, now), false), slots)
      else if route == Register || status == 200 then (ViewDone(now, resetAt), slots)
      else (Answered(Viewed(status), false), slots)
    case ViewDone(now, resetAt) =>
      (ResetAdded(now, resetAt), slots.(reset := Added(slots.reset, resetAt, Max(resetAt - now, 1), at)))
    case ResetAdded(now, resetAt) => (CounterReread(now, resetAt, Peek(slots.counter, at)), slots)
    case CounterReread(now, resetAt, seen) =>
      var counter := CountedUp(slots.counter, seen, Max(resetAt - now, 1), at);
      var over := route == Login && counter.value.n > policy.limit;
      (Answered(if over then Refusal(resetAt, now) else Viewed(status), true), slots.(counter := Some(counter)))
    case Answered(_, _) => (p, slots)
  }

  /** `n` consecutive operations of one worker, none by anyone else in between. */
  function Alone(p: Phase, slots: Slots, route: Route, policy: Policy, status: int, at: real, n: nat): (Phase, Slots)
    decreases n
  {
    if n == 0 then (p, slots)
    else
      var (p', slots') := Advance(p, slots, route, policy, status, at);
      Alone(p', slots', route, policy, status, at, n - 1)
  }

  lemma {:induction false} TwoAlone(p: Phase, slots: Slots, route: Route, policy: Policy, status: int, at: real)
    ensures var (p1, s1) := Advance(p, slots, route, policy, status, at);
            Alone(p, slots, route, policy, status, at, 2) == Advance(p1, s1, route, policy, status, at)
  {
    var (p1, s1) := Advance(p, slots, route, policy, status, at);
    var (p2, s2) := Advance(p1, s1, route, policy, status, at);
    assert Alone(p2, s2, route, policy, status, at, 0) == (p2, s2);
    assert Alone(p1, s1, route, policy, status, at, 1) == (p2, s2);
  }

  lemma {:induction false} LoneWorkerLoads(route: Route, slots: Slots, policy: Policy, status: int, at: real)
    ensures var load := Load(slots, policy.window, at.Floor, at);
            Alone(Arrived, slots, route, policy, status, at, 2)
            == (LoadDone(at.Floor, load.count, load.resetAt), load.slots)
  {
    TwoAlone(Arrived, slots, route, policy, status, at);
  }

  lemma {:induction false} LoneWorkerCounts(route: Route, slots: Slots, policy: Policy, q: Post, now: int, resetAt: int)
    ensures var (added, s1) := Advance(ViewDone(now, resetAt), slots, route, policy, q.status, q.added);
            var (reread, s2) := Advance(added, s1, route, policy, q.status, q.reread);
            var (p, s3) := Advance(reread, s2, route, policy, q.status, q.counted);
            var (after, count) := Increment(slots, resetAt, now, q);
            var over := route == Login && count > policy.limit;
            s3 == after && p == Answered(if over then Refusal(resetAt, now) else Viewed(q.status), true)
  {
  }

  /** Undisturbed, the atomic operations amount to the request of the sequential middleware. */
  lemma {:induction false} LoneWorkerServes(route: Route, slots: Slots, policy: Policy, q: Post)
    ensures var (loaded, s1) := Alone(Arrived, slots, route, policy, q.status, q.start, 2);
            var (viewed, s2) := Advance(loaded, s1, route, policy, q.status, q.start);
            var (added, s3) := Advance(viewed, s2, route, policy, q.status, q.added);
            var (reread, s4) := Advance(added, s3, route, policy, q.status, q.reread);
            var (p, s5) := Advance(reread, s4, route, policy, q.status, q.counted);
            p.Answered? && (s5, p.answer) == Serve(route, slots, policy, q)
  {
    var now := q.start.Floor;
    var load := Load(slots, policy.window, now, q.start);
    LoneWorkerLoads(route, slots, policy, q.status, q.start);
    LoneWorkerCounts(route, load.slots, policy, q, now, load.resetAt);
  }

  function Next(s: System, e: Step): (s': System)
    requires |s.views| == |s.phases|
    ensures |s'.phases| == |s.phases| && s'.views == s.views && s'.policy == s.policy && s'.route == s.route
  {
    if e.worker < |s.phases| then
      var (p, slots) := Advance(s.phases[e.worker], s.slots, s.route, s.policy, s.views[e.worker], e.at);
      s.(slots := slots, phases := s.phases[e.worker := p])
    else s
  }

  function Run(s: System, steps: seq<Step>): (s': System)
    requires |s.views| == |s.phases|
    ensures |s'.phases| == |s.phases| && s'.views == s.views && s'.policy == s.policy && s'.route == s.route
  {
    if steps == [] then s else Next(Run(s, steps[..|steps| - 1]), steps[|steps| - 1])
  }

  /** How many workers are in a phase of the given kind. */
  ghost function Tally(ps: seq<Phase>, kind: Phase -> bool): nat {
    if ps == [] then 0 else (if kind(ps[0]) then 1 else 0) + Tally(ps[1..], kind)
  }

  lemma {:induction false} TallyUpdate(ps: seq<Phase>, kind: Phase -> bool, i: nat, p: Phase)
    requires i < |ps|
    ensures Tally(ps[i := p], kind) == Tally(ps, kind) - (if kind(ps[i]) then 1 else 0) + (if kind(p) then 1 else 0)
  {
    if i > 0 {
      assert ps[i := p][1..] == ps[1..][i - 1 := p];
      TallyUpdate(ps[1..], kind, i - 1, p);
    } else {
      assert ps[i := p][1..] == ps[1..];
    }
  }

  lemma {:induction false} TallyOf(ps: seq<Phase>, kind: Phase -> bool, all: bool)
    requires forall i :: 0 <= i < |ps| ==> kind(ps[i]) == all
    ensures Tally(ps, kind) == if all then |ps| else 0
  {
    if ps == [] {
    } else {
      TallyOf(ps[1..], kind, all);
    }
  }

  const LET_THROUGH := (p: Phase) => p.Answered? && p.answer == Viewed(200)
  const COUNTED := (p: Phase) => p.Answered? && p.counted

  /** The counter stands at n in the window that ends at resetAt, and both keys live at least until `expires`. */
  ghost predicate Live(slots: Slots, n: int, resetAt: int, expires: real) {
    && slots.counter.Some? && slots.counter.value.value == Number(n) && slots.counter.value.expires >= expires
    && slots.reset.Some? && slots.reset.value.value == resetAt && slots.reset.value.expires >= expires
  }

  /** Everyone has just arrived and the live counter stands at k. */
  ghost predicate Initial(s: System, route: Route, k: nat, resetAt: int, expires: real) {
    && s.route == route && Live(s.slots, k, resetAt, expires) && |s.views| == |s.phases|
    && (forall i :: 0 <= i < |s.phases| ==> s.phases[i] == Arrived)
  }

  /** The step in which a login succeeds, which clears the keys. */
  predicate Succeeds(s: System, e: Step) {
    && s.route == Login && |s.views| == |s.phases| && e.worker < |s.phases|
    && s.phases[e.worker].LoadDone? && s.views[e.worker] == 302
  }

  /** Step i happens before the window ends, while the keys are live, and is no successful login. */
  ghost predicate StillOpen(s: System, steps: seq<Step>, i: nat, resetAt: int, expires: real)
    requires |s.views| == |s.phases| && i < |steps|
  {
    steps[i].at.Floor < resetAt && steps[i].at < expires && !Succeeds(Run(s, steps[..i]), steps[i])
  }

  ghost predicate Within(s: System, steps: seq<Step>, resetAt: int, expires: real)
    requires |s.views| == |s.phases|
  {
    forall i :: 0 <= i < |steps| ==> StillOpen(s, steps, i, resetAt, expires)
  }

  lemma {:induction false} WithinBefore(s: System, steps: seq<Step>, n: nat, resetAt: int, expires: real)
    requires |s.views| == |s.phases| && Within(s, steps, resetAt, expires) && n <= |steps|
    ensures Within(s, steps[..n], resetAt, expires)
  {
    forall i | 0 <= i < n ensures StillOpen(s, steps[..n], i, resetAt, expires) {
      assert StillOpen(s, steps, i, resetAt, expires);
      assert steps[..n][..i] == steps[..i];
    }
  }

  function Counter(s: System): int {
    if s.slots.counter.Some? && s.slots.counter.value.value.Number? then s.slots.counter.value.value.n else 0
  }

  ghost predicate PhaseOk(p: Phase, status: int, policy: Policy, counter: int, resetAt: int) {
    match p
    case Arrived => true
    case CounterRead(now, raw) => now < resetAt && raw.Some? && raw.value.Number? && raw.value.n <= counter
    case LoadDone(now, count, end) => count <= counter && end == resetAt && now < resetAt
    case ViewDone(now, end) => status == 200 && end == resetAt && now < resetAt
    case ResetAdded(now, end) => status == 200 && end == resetAt && now < resetAt
    case CounterReread(now, end, seen) =>
      status == 200 && end == resetAt && now < resetAt && seen.Some? && seen.value.Number?
    case Answered(answer, counted) =>
      && (counted ==> status == 200)
      && (answer.TooMany? ==> counter >= policy.limit && answer.retryAfter >= 1)
      && (answer.Viewed? ==> answer.status == status && (status == 200 ==> counted))
  }

  ghost predicate Inv(s: System, k: nat, resetAt: int, expires: real) {
    && s.route == Login && |s.views| == |s.phases| && Live(s.slots, Counter(s), resetAt, expires)
    && (forall i :: 0 <= i < |s.phases| ==> PhaseOk(s.phases[i], s.views[i], s.policy, Counter(s), resetAt))
    && Counter(s) == k + Tally(s.phases, COUNTED)
    && Tally(s.phases, LET_THROUGH) == Max(Min(Counter(s), s.policy.limit) - k, 0)
  }

  lemma {:induction false} AdvanceKeepsPhaseOk(p: Phase, slots: Slots, policy: Policy, status: int, at: real,
                                               counter: int, resetAt: int, expires: real)
    requires Live(slots, counter, resetAt, expires)
    requires PhaseOk(p, status, policy, counter, resetAt) && !(p.LoadDone? && status == 302)
    requires at.Floor < resetAt && at < expires
    ensures var (next, after) := Advance(p, slots, Login, policy, status, at);
            var now := counter + (if COUNTED(next) && !COUNTED(p) then 1 else 0);
            && Live(after, now, resetAt, expires) && PhaseOk(next, status, policy, now, resetAt)
            && (COUNTED(p) ==> COUNTED(next)) && (LET_THROUGH(p) ==> LET_THROUGH(next))
            && (COUNTED(next) && !COUNTED(p) ==> (LET_THROUGH(next) <==> now <= policy.limit) && !LET_THROUGH(p))
            && (LET_THROUGH(next) && !LET_THROUGH(p) ==> COUNTED(next) && !COUNTED(p))
  {
  }

  lemma {:induction false} StepKeepsInv(s: System, k: nat, resetAt: int, expires: real, e: Step)
    requires Inv(s, k, resetAt, expires) && e.at.Floor < resetAt && e.at < expires && !Succeeds(s, e)
    ensures Inv(Next(s, e), k, resetAt, expires) && Counter(s) <= Counter(Next(s, e))
  {
    if e.worker < |s.phases| {
      var (p, _) := Advance(s.phases[e.worker], s.slots, s.route, s.policy, s.views[e.worker], e.at);
      AdvanceKeepsPhaseOk(s.phases[e.worker], s.slots, s.policy, s.views[e.worker], e.at, Counter(s), resetAt, expires);
      TallyUpdate(s.phases, COUNTED, e.worker, p);
      TallyUpdate(s.phases, LET_THROUGH, e.worker, p);
    }
  }

  lemma {:induction false} RunKeepsInv(s: System, k: nat, resetAt: int, expires: real, steps: seq<Step>)
    requires Initial(s, Login, k, resetAt, expires) && Within(s, steps, resetAt, expires)
    ensures Inv(Run(s, steps), k, resetAt, expires)
  {
    if steps == [] {
      TallyOf(s.phases, COUNTED, false);
      TallyOf(s.phases, LET_THROUGH, false);
    } else {
      WithinBefore(s, steps, |steps| - 1, resetAt, expires);
      assert StillOpen(s, steps, |steps| - 1, resetAt, expires);
      RunKeepsInv(s, k, resetAt, expires, steps[..|steps| - 1]);
      StepKeepsInv(Run(s, steps[..|steps| - 1]), k, resetAt, expires, steps[|steps| - 1]);
    }
  }

  lemma {:induction false} LastStep(s: System, k: nat, resetAt: int, expires: real, steps: seq<Step>)
    requires steps != [] && Initial(s, Login, k, resetAt, expires) && Within(s, steps, resetAt, expires)
    ensures Counter(Run(s, steps[..|steps| - 1])) <= Counter(Run(s, steps))
  {
    var before := steps[..|steps| - 1];
    assert StillOpen(s, steps, |steps| - 1, resetAt, expires);
    WithinBefore(s, steps, |steps| - 1, resetAt, expires);
    RunKeepsInv(s, k, resetAt, expires, before);
    StepKeepsInv(Run(s, before), k, resetAt, expires, steps[|steps| - 1]);
  }

  /** In every interleaving the counter never falls. */
  lemma {:induction false} CounterNeverFalls(s: System, k: nat, resetAt: int, expires: real, steps: seq<Step>, n: nat)
    requires Initial(s, Login, k, resetAt, expires) && Within(s, steps, resetAt, expires) && n <= |steps|
    ensures Counter(Run(s, steps[..n])) <= Counter(Run(s, steps))
    decreases |steps|
  {
    if n < |steps| {
      var before := steps[..|steps| - 1];
      assert before[..n] == steps[..n];
      WithinBefore(s, steps, |steps| - 1, resetAt, expires);
      CounterNeverFalls(s, k, resetAt, expires, before, n);
      LastStep(s, k, resetAt, expires, steps);
    } else {
      assert steps[..n] == steps;
    }
  }

  /** In every interleaving at most limit - k failing logins are let through, and every other one that
      has been answered got 429. */
  lemma {:induction false} FailuresLetThrough(s: System, k: nat, resetAt: int, expires: real, steps: seq<Step>)
    requires Initial(s, Login, k, resetAt, expires) && Within(s, steps, resetAt, expires)
    ensures Tally(Run(s, steps).phases, LET_THROUGH) <= Max(s.policy.limit - k, 0)
    ensures forall i :: 0 <= i < |s.phases| && s.views[i] == 200 && Run(s, steps).phases[i].Answered? ==>
              Run(s, steps).phases[i].answer == Viewed(200) || Run(s, steps).phases[i].answer.TooMany?
  {
    RunKeepsInv(s, k, resetAt, expires, steps);
  }

  /** Once all failing logins have been answered, exactly min(number of workers, limit - k) were let through:
      the races neither admit one too many nor refuse one too many. */
  lemma {:induction false} FailuresLetThroughExactly(s: System, k: nat, resetAt: int, expires: real, steps: seq<Step>)
    requires Initial(s, Login, k, resetAt, expires) && Within(s, steps, resetAt, expires)
    requires forall i :: 0 <= i < |s.views| ==> s.views[i] == 200
    requires forall i :: 0 <= i < |s.phases| ==> Run(s, steps).phases[i].Answered?
    ensures Tally(Run(s, steps).phases, LET_THROUGH) == Min(|s.phases|, Max(s.policy.limit - k, 0))
  {
    RunKeepsInv(s, k, resetAt, expires, steps);
    var end := Run(s, steps);
    if forall i :: 0 <= i < |s.phases| ==> end.phases[i].counted {
      TallyOf(end.phases, COUNTED, true);
    } else {
      TallyAtMost(end.phases, COUNTED);
      TallyAtMost(end.phases, LET_THROUGH);
    }
  }

  lemma {:induction false} TallyAtMost(ps: seq<Phase>, kind: Phase -> bool)
    ensures Tally(ps, kind) <= |ps|
  {
    if ps == [] {
    } else {
      TallyAtMost(ps[1..], kind);
    }
  }

  // ---- registrations: nothing is checked after the increment ----

  /** The request has read a count below the limit, so it will reach the view, and is not counted yet. */
  predicate UnderWay(p: Phase, limit: int) {
    match p
    case CounterRead(_, raw) => raw.Some? && raw.value.Number? && raw.value.n < limit
    case LoadDone(_, count, _) => count < limit
    case ViewDone(_, _) => true
    case ResetAdded(_, _) => true
    case CounterReread(_, _, _) => true
    case _ => false
  }

  ghost function PhaseUnderWay(limit: int): Phase -> bool {
    p => UnderWay(p, limit)
  }

  /** How many registrations have reached the view, or are bound to. */
  ghost function Passing(s: System): nat {
    Tally(s.phases, PhaseUnderWay(s.policy.limit)) + Tally(s.phases, COUNTED)
  }

  ghost predicate RegisterOk(p: Phase, policy: Policy, resetAt: int) {
    match p
    case Arrived => true
    case CounterRead(now, raw) => now < resetAt && raw.Some? && raw.value.Number?
    case LoadDone(now, _, end) => now < resetAt && end == resetAt
    case Answered(answer, counted) => answer.Viewed? == counted
    case CounterReread(now, end, seen) => now < resetAt && end == resetAt && seen.Some? && seen.value.Number?
    case _ => p.now < resetAt && p.resetAt == resetAt
  }

  ghost predicate RegisterInv(s: System, k: nat, resetAt: int, expires: real) {
    && s.route == Register && |s.views| == |s.phases| && Live(s.slots, Counter(s), resetAt, expires)
    && (forall i :: 0 <= i < |s.phases| ==> RegisterOk(s.phases[i], s.policy, resetAt))
    && Counter(s) == k + Tally(s.phases, COUNTED)
  }

  lemma {:induction false} AdvanceKeepsRegisterOk(p: Phase, slots: Slots, policy: Policy, status: int, at: real,
                                                  counter: int, resetAt: int, expires: real)
    requires Live(slots, counter, resetAt, expires) && RegisterOk(p, policy, resetAt)
    requires at.Floor < resetAt && at < expires
    ensures var (next, after) := Advance(p, slots, Register, policy, status, at);
            var now := counter + (if COUNTED(next) && !COUNTED(p) then 1 else 0);
            var passed, passes := UnderWay(p, policy.limit), UnderWay(next, policy.limit);
            && Live(after, now, resetAt, expires) && RegisterOk(next, policy, resetAt)
            && (COUNTED(p) ==> COUNTED(next) && !passed) && (COUNTED(next) ==> !passes)
            && (p != Arrived ==> (passed || COUNTED(p) <==> passes || COUNTED(next)))
            && (p == Arrived ==> !COUNTED(next) && (passes <==> counter < policy.limit))
  {
  }

  /** A step that lets one more registration pass finds the counter below the limit. */
  lemma {:induction false} StepKeepsRegisterInv(s: System, k: nat, resetAt: int, expires: real, e: Step)
    requires RegisterInv(s, k, resetAt, expires) && e.at.Floor < resetAt && e.at < expires
    ensures RegisterInv(Next(s, e), k, resetAt, expires)
    ensures Passing(Next(s, e)) == Passing(s)
            || (Counter(Next(s, e)) == Counter(s) < s.policy.limit && Passing(Next(s, e)) == Passing(s) + 1)
  {
    if e.worker < |s.phases| {
      var limit := s.policy.limit;
      var (p, _) := Advance(s.phases[e.worker], s.slots, s.route, s.policy, s.views[e.worker], e.at);
      AdvanceKeepsRegisterOk(s.phases[e.worker], s.slots, s.policy, s.views[e.worker], e.at,
                             Counter(s), resetAt, expires);
      TallyUpdate(s.phases, COUNTED, e.worker, p);
      TallyUpdate(s.phases, PhaseUnderWay(limit), e.worker, p);
    }
  }

  /** After the first n steps at most `crowd` registrations are under way at once. */
  ghost predicate Crowd(s: System, steps: seq<Step>, n: nat, crowd: nat)
    requires |s.views| == |s.phases| && n <= |steps|
  {
    Tally(Run(s, steps[..n]).phases, PhaseUnderWay(s.policy.limit)) <= crowd
  }

  ghost predicate NeverCrowded(s: System, steps: seq<Step>, crowd: nat)
    requires |s.views| == |s.phases|
  {
    forall n :: 0 <= n <= |steps| ==> Crowd(s, steps, n, crowd)
  }

  /** In every interleaving with never more than `crowd` registrations under way at once, at most
      limit - k - 1 + crowd pass if the counter stood at k below the limit, and none otherwise. */
  lemma {:induction false} RegistrationsLetThrough(s: System, k: nat, resetAt: int, expires: real,
                                                   steps: seq<Step>, crowd: nat)
    requires Initial(s, Register, k, resetAt, expires) && Within(s, steps, resetAt, expires)
    requires NeverCrowded(s, steps, crowd)
    ensures RegisterInv(Run(s, steps), k, resetAt, expires)
    ensures Passing(Run(s, steps)) <= if k < s.policy.limit then s.policy.limit - k - 1 + crowd else 0
    decreases |steps|
  {
    if steps == [] {
      TallyOf(s.phases, COUNTED, false);
      TallyOf(s.phases, PhaseUnderWay(s.policy.limit), false);
    } else {
      var before := steps[..|steps| - 1];
      CrowdBefore(s, steps, crowd);
      WithinBefore(s, steps, |before|, resetAt, expires);
      RegistrationsLetThrough(s, k, resetAt, expires, before, crowd);
      assert StillOpen(s, steps, |before|, resetAt, expires);
      StepKeepsRegisterInv(Run(s, before), k, resetAt, expires, steps[|before|]);
      assert Crowd(s, steps, |steps|, crowd) && steps[..|steps|] == steps;
    }
  }

  lemma {:induction false} CrowdBefore(s: System, steps: seq<Step>, crowd: nat)
    requires |s.views| == |s.phases| && steps != [] && NeverCrowded(s, steps, crowd)
    ensures NeverCrowded(s, steps[..|steps| - 1], crowd)
  {
    var before := steps[..|steps| - 1];
    forall n | 0 <= n <= |before| ensures Crowd(s, before, n, crowd) {
      assert Crowd(s, steps, n, crowd);
      assert before[..n] == steps[..n];
    }
  }

  lemma {:induction false} RunConcat(s: System, a: seq<Step>, b: seq<Step>)
    requires |s.views| == |s.phases|
    ensures Run(s, a + b) == Run(Run(s, a), b)
  {
    if b == [] {
      assert a + b == a;
    } else {
      assert (a + b)[..|a + b| - 1] == a + b[..|b| - 1];
      RunConcat(s, a, b[..|b| - 1]);
    }
  }

  lemma {:induction false} RunLast(s: System, steps: seq<Step>, e: Step)
    requires |s.views| == |s.phases|
    ensures Run(s, steps + [e]) == Next(Run(s, steps), e)
  {
    assert (steps + [e])[..|steps|] == steps;
  }

  /** Workers lo to hi - 1 each do one operation. */
  function Turns(lo: nat, hi: nat, at: real): seq<Step>
    decreases hi
  {
    if hi <= lo then [] else Turns(lo, hi - 1, at) + [Step(hi - 1, at)]
  }

  function Replaced(ps: seq<Phase>, lo: nat, hi: nat, p: Phase): seq<Phase>
    requires lo <= hi <= |ps|
  {
    ps[..lo] + seq(hi - lo, i => p) + ps[hi..]
  }

  ghost predicate Uniform(ps: seq<Phase>, lo: nat, hi: nat, p: Phase)
    requires hi <= |ps|
  {
    forall i :: lo <= i < hi ==> ps[i] == p
  }

  /** Whatever its view answers, a registration's next operation leads from p to `next` and writes nothing. */
  ghost predicate Silent(p: Phase, next: Phase, slots: Slots, policy: Policy, at: real) {
    forall status :: Advance(p, slots, Register, policy, status, at) == (next, slots)
  }

  lemma {:induction false} SilentStep(s: System, w: nat, at: real, p: Phase, next: Phase)
    requires s.route == Register && |s.views| == |s.phases| && w < |s.phases|
    requires s.phases[w] == p && Silent(p, next, s.slots, s.policy, at)
    ensures Next(s, Step(w, at)) == s.(phases := s.phases[w := next])
  {
    assert Advance(p, s.slots, Register, s.policy, s.views[w], at) == (next, s.slots);
  }

  lemma {:induction false} ReplacedOneMore(ps: seq<Phase>, lo: nat, hi: nat, p: Phase)
    requires lo < hi <= |ps|
    ensures Replaced(ps, lo, hi - 1, p)[hi - 1] == ps[hi - 1]
    ensures Replaced(ps, lo, hi - 1, p)[hi - 1 := p] == Replaced(ps, lo, hi, p)
  {
  }

  /** Turns of silent operations take the workers from p to `next`. */
  lemma {:induction false} SilentTurns(s: System, lo: nat, hi: nat, at: real, p: Phase, next: Phase)
    requires s.route == Register && |s.views| == |s.phases| && lo <= hi <= |s.phases|
    requires Uniform(s.phases, lo, hi, p) && Silent(p, next, s.slots, s.policy, at)
    ensures Run(s, Turns(lo, hi, at)) == s.(phases := Replaced(s.phases, lo, hi, next))
    decreases hi
  {
    if hi == lo {
      assert Replaced(s.phases, lo, hi, next) == s.phases;
    } else {
      SilentTurns(s, lo, hi - 1, at, p, next);
      ReplacedOneMore(s.phases, lo, hi, next);
      RunLast(s, Turns(lo, hi - 1, at), Step(hi - 1, at));
      SilentStep(s.(phases := Replaced(s.phases, lo, hi - 1, next)), hi - 1, at, p, next);
    }
  }

  /** Workers lo to hi - 1 read the counter, then the reset key, then all run the view. */
  function Race(lo: nat, hi: nat, at: real): seq<Step> {
    Turns(lo, hi, at) + Turns(lo, hi, at) + Turns(lo, hi, at)
  }

  lemma {:induction false} ReplacedAgain(ps: seq<Phase>, lo: nat, hi: nat, p: Phase, q: Phase)
    requires lo <= hi <= |ps|
    ensures Uniform(Replaced(ps, lo, hi, p), lo, hi, p)
    ensures Replaced(Replaced(ps, lo, hi, p), lo, hi, q) == Replaced(ps, lo, hi, q)
  {
  }

  lemma {:induction false} RaceIsSilent(slots: Slots, policy: Policy, n: nat, at: real, resetAt: int, expires: real)
    requires Live(slots, n, resetAt, expires) && n < policy.limit && at.Floor < resetAt && at < expires
    ensures Silent(Arrived, CounterRead(at.Floor, Some(Number(n))), slots, policy, at)
    ensures Silent(CounterRead(at.Floor, Some(Number(n))), LoadDone(at.Floor, n, resetAt), slots, policy, at)
    ensures Silent(LoadDone(at.Floor, n, resetAt), ViewDone(at.Floor, resetAt), slots, policy, at)
  {
  }

  lemma {:induction false} RaceReachesTheView(s: System, n: nat, lo: nat, hi: nat, at: real,
                                              resetAt: int, expires: real)
    requires s.route == Register && |s.views| == |s.phases| && lo <= hi <= |s.phases|
    requires Uniform(s.phases, lo, hi, Arrived) && Live(s.slots, n, resetAt, expires) && n < s.policy.limit
    requires at.Floor < resetAt && at < expires
    ensures Run(s, Race(lo, hi, at)) == s.(phases := Replaced(s.phases, lo, hi, ViewDone(at.Floor, resetAt)))
  {
    var read, loaded := CounterRead(at.Floor, Some(Number(n))), LoadDone(at.Floor, n, resetAt);
    var viewed := ViewDone(at.Floor, resetAt);
    RaceIsSilent(s.slots, s.policy, n, at, resetAt, expires);
    ReplacedAgain(s.phases, lo, hi, read, loaded);
    ReplacedAgain(s.phases, lo, hi, loaded, viewed);
    SilentTurns(s, lo, hi, at, Arrived, read);
    SilentTurns(s.(phases := Replaced(s.phases, lo, hi, read)), lo, hi, at, read, loaded);
    SilentTurns(s.(phases := Replaced(s.phases, lo, hi, loaded)), lo, hi, at, loaded, viewed);
    var turns := Turns(lo, hi, at);
    RunConcat(s, turns, turns);
    RunConcat(s, turns + turns, turns);
  }

  /** However many registrations race: if all read the counter before any counts itself, all reach the view as
      long as the counter stood below the limit. */
  lemma {:induction false} RegistrationRace(s: System, k: nat, resetAt: int, expires: real, at: real)
    requires Initial(s, Register, k, resetAt, expires) && k < s.policy.limit
    requires at.Floor < resetAt && at < expires
    ensures Uniform(Run(s, Race(0, |s.phases|, at)).phases, 0, |s.phases|, ViewDone(at.Floor, resetAt))
  {
    RaceReachesTheView(s, k, 0, |s.phases|, at, resetAt, expires);
  }

  // ---- the bound is attained ----

  /** One worker's whole request, undisturbed. */
  function Solo(w: nat, at: real): seq<Step> {
    [Step(w, at), Step(w, at), Step(w, at), Step(w, at), Step(w, at), Step(w, at)]
  }

  lemma {:induction false} StepBy(s: System, w: nat, at: real, p: Phase, slots: Slots)
    requires |s.views| == |s.phases| && w < |s.phases|
    requires Advance(s.phases[w], s.slots, s.route, s.policy, s.views[w], at) == (p, slots)
    ensures Next(s, Step(w, at)) == s.(slots := slots, phases := s.phases[w := p])
  {
  }

  /** m operations of one worker, none by anyone else in between. */
  lemma {:induction false} RunAlone(s: System, w: nat, at: real, steps: seq<Step>)
    requires |s.views| == |s.phases| && w < |s.phases| && forall i :: 0 <= i < |steps| ==> steps[i] == Step(w, at)
    ensures var (p, slots) := Alone(s.phases[w], s.slots, s.route, s.policy, s.views[w], at, |steps|);
            Run(s, steps) == s.(slots := slots, phases := s.phases[w := p])
    decreases |steps|
  {
    if steps == [] {
      assert s.phases[w := s.phases[w]] == s.phases;
    } else {
      var (p, slots) := Advance(s.phases[w], s.slots, s.route, s.policy, s.views[w], at);
      var s1 := s.(slots := slots, phases := s.phases[w := p]);
      StepBy(s, w, at, p, slots);
      RunAlone(s1, w, at, steps[1..]);
      RunConcat(s, [steps[0]], steps[1..]);
      RunLast(s, [], steps[0]);
      assert [steps[0]] + steps[1..] == steps && [] + [steps[0]] == [steps[0]];
      var (q, _) := Alone(p, slots, s.route, s.policy, s.views[w], at, |steps| - 1);
      assert s1.phases[w := q] == s.phases[w := q];
    }
  }

  lemma {:induction false} AloneConcat(p: Phase, slots: Slots, policy: Policy, status: int, at: real, m: nat, n: nat)
    ensures var (q, s1) := Alone(p, slots, Register, policy, status, at, m);
            Alone(p, slots, Register, policy, status, at, m + n) == Alone(q, s1, Register, policy, status, at, n)
    decreases m
  {
    if m == 0 {
    } else {
      var (q, s1) := Advance(p, slots, Register, policy, status, at);
      AloneConcat(q, s1, policy, status, at, m - 1, n);
    }
  }

  lemma {:induction false} SoloCounts(s: System, w: nat, at: real, n: nat, resetAt: int, expires: real)
    requires s.route == Register && |s.views| == |s.phases| && w < |s.phases| && s.phases[w] == Arrived
    requires Live(s.slots, n, resetAt, expires) && n < s.policy.limit && at.Floor < resetAt && at < expires
    ensures var after := Run(s, Solo(w, at));
            && after == s.(slots := after.slots, phases := s.phases[w := Answered(Viewed(s.views[w]), true)])
            && Live(after.slots, n + 1, resetAt, expires)
  {
    var status, policy := s.views[w], s.policy;
    RunAlone(s, w, at, Solo(w, at));
    AloneConcat(Arrived, s.slots, policy, status, at, 2, 4);
    LoneWorkerLoads(Register, s.slots, policy, status, at);
    var loaded, viewed := LoadDone(at.Floor, n, resetAt), ViewDone(at.Floor, resetAt);
    AloneConcat(loaded, s.slots, policy, status, at, 2, 2);
    TwoAlone(loaded, s.slots, Register, policy, status, at);
    TwoAlone(ResetAdded(at.Floor, resetAt), s.slots, Register, policy, status, at);
  }

  /** The first m workers have been counted, the others have just arrived. */
  ghost predicate CountedUpTo(s: System, m: nat) {
    m <= |s.phases| && (forall i :: 0 <= i < m ==> COUNTED(s.phases[i])) && Uniform(s.phases, m, |s.phases|, Arrived)
  }

  ghost predicate AtOneTime(steps: seq<Step>, at: real) {
    forall i :: 0 <= i < |steps| ==> steps[i].at == at
  }

  /** The steps, all at one instant and never more crowded than that, lead from s to t. */
  ghost predicate Leads(s: System, steps: seq<Step>, t: System, at: real, crowd: nat) {
    |s.views| == |s.phases| && Run(s, steps) == t && NeverCrowded(s, steps, crowd) && AtOneTime(steps, at)
  }

  lemma {:induction false} LeadsConcat(s: System, a: seq<Step>, t: System, b: seq<Step>, u: System,
                                       at: real, few: nat, crowd: nat)
    requires Leads(s, a, t, at, few) && Leads(t, b, u, at, crowd) && few <= crowd
    ensures Leads(s, a + b, u, at, crowd)
  {
    NeverCrowdedMore(s, a, few, crowd);
    NeverCrowdedConcat(s, a, b, crowd);
    RunConcat(s, a, b);
  }

  lemma {:induction false} SoloExtends(s: System, m: nat, at: real, n: nat, resetAt: int, expires: real)
    returns (steps: seq<Step>, after: System)
    requires s.route == Register && |s.views| == |s.phases| && m < |s.phases| && CountedUpTo(s, m)
    requires Live(s.slots, n, resetAt, expires) && n < s.policy.limit && at.Floor < resetAt && at < expires
    ensures Leads(s, steps, after, at, 1) && after.policy == s.policy && after.route == s.route
    ensures CountedUpTo(after, m + 1) && |after.phases| == |s.phases| && Live(after.slots, n + 1, resetAt, expires)
  {
    steps, after := Solo(m, at), Run(s, Solo(m, at));
    SoloCounts(s, m, at, n, resetAt, expires);
    RangeNeverCrowded(s, Solo(m, at), m, m + 1);
  }

  /** The first m workers' whole requests, one after the other. */
  lemma {:induction false} Solos(s: System, k: nat, resetAt: int, expires: real, m: nat, at: real)
    returns (steps: seq<Step>, after: System)
    requires Initial(s, Register, k, resetAt, expires) && m <= |s.phases| && k + m <= s.policy.limit
    requires at.Floor < resetAt && at < expires
    ensures Leads(s, steps, after, at, 1) && after.policy == s.policy && after.route == s.route
    ensures CountedUpTo(after, m) && |after.phases| == |s.phases| && Live(after.slots, k + m, resetAt, expires)
  {
    if m == 0 {
      steps, after := [], s;
      RangeNeverCrowded(s, [], 0, 1);
    } else {
      var first, before := Solos(s, k, resetAt, expires, m - 1, at);
      var last;
      last, after := SoloExtends(before, m - 1, at, k + m - 1, resetAt, expires);
      LeadsConcat(s, first, before, last, after, at, 1, 1);
      steps := first + last;
    }
  }

  lemma {:induction false} NeverCrowdedConcat(s: System, a: seq<Step>, b: seq<Step>, crowd: nat)
    requires |s.views| == |s.phases| && NeverCrowded(s, a, crowd) && NeverCrowded(Run(s, a), b, crowd)
    ensures NeverCrowded(s, a + b, crowd)
  {
    forall n | 0 <= n <= |a + b| ensures Crowd(s, a + b, n, crowd) {
      if n <= |a| {
        assert Crowd(s, a, n, crowd);
        assert (a + b)[..n] == a[..n];
      } else {
        assert Crowd(Run(s, a), b, n - |a|, crowd);
        assert (a + b)[..n] == a + b[..n - |a|];
        RunConcat(s, a, b[..n - |a|]);
      }
    }
  }

  ghost predicate ByWorkers(steps: seq<Step>, lo: nat, hi: nat) {
    forall i :: 0 <= i < |steps| ==> lo <= steps[i].worker < hi
  }

  lemma {:induction false} OthersRest(s: System, steps: seq<Step>, lo: nat, hi: nat, i: nat)
    requires |s.views| == |s.phases| && ByWorkers(steps, lo, hi) && i < |s.phases| && !(lo <= i < hi)
    ensures Run(s, steps).phases[i] == s.phases[i]
  {
    if steps == [] {
    } else {
      OthersRest(s, steps[..|steps| - 1], lo, hi, i);
    }
  }

  /** Workers outside lo to hi - 1 that are not under way do not become so: at most hi - lo are. */
  lemma {:induction false} RangeNeverCrowded(s: System, steps: seq<Step>, lo: nat, hi: nat)
    requires |s.views| == |s.phases| && ByWorkers(steps, lo, hi) && lo <= hi
    requires forall i :: 0 <= i < |s.phases| && !(lo <= i < hi) ==> !UnderWay(s.phases[i], s.policy.limit)
    ensures NeverCrowded(s, steps, hi - lo)
  {
    var crowd: nat := hi - lo;
    forall n | 0 <= n <= |steps| ensures Crowd(s, steps, n, crowd) {
      var now := Run(s, steps[..n]);
      forall i | 0 <= i < |s.phases| && !(lo <= i < hi) ensures now.phases[i] == s.phases[i] {
        OthersRest(s, steps[..n], lo, hi, i);
      }
      TallyWithin(now.phases, PhaseUnderWay(s.policy.limit), lo, hi);
    }
  }

  lemma {:induction false} TallyWithin(ps: seq<Phase>, kind: Phase -> bool, lo: int, hi: int)
    requires lo <= hi && forall i :: 0 <= i < |ps| && !(lo <= i < hi) ==> !kind(ps[i])
    ensures Tally(ps, kind) <= hi - lo
    ensures 0 <= lo && hi <= |ps| && (forall i :: lo <= i < hi ==> kind(ps[i])) ==> Tally(ps, kind) == hi - lo
  {
    if ps == [] {
    } else {
      if hi <= 0 {
        TallyOf(ps, kind, false);
      } else {
        TallyWithin(ps[1..], kind, if lo <= 0 then 0 else lo - 1, hi - 1);
      }
    }
  }

  /** A race of some who are left for the last place: all of them pass. */
  lemma {:induction false} RaceForTheLastPlace(s: System, m: nat, hi: nat, at: real, resetAt: int, expires: real)
    returns (steps: seq<Step>, after: System)
    requires s.route == Register && |s.views| == |s.phases| && m <= hi <= |s.phases| && CountedUpTo(s, m)
    requires Live(s.slots, s.policy.limit - 1, resetAt, expires) && s.policy.limit >= 1
    requires at.Floor < resetAt && at < expires
    ensures Leads(s, steps, after, at, hi - m) && Passing(after) == hi
  {
    TurnsByWorkers(m, hi, at);
    RangeNeverCrowded(s, Race(m, hi, at), m, hi);
    RaceReachesTheView(s, s.policy.limit - 1, m, hi, at, resetAt, expires);
    steps, after := Race(m, hi, at), s.(phases := Replaced(s.phases, m, hi, ViewDone(at.Floor, resetAt)));
    ReplacedTallies(s, m, hi, ViewDone(at.Floor, resetAt));
  }

  lemma {:induction false} ReplacedTallies(s: System, m: nat, hi: nat, p: Phase)
    requires m <= hi <= |s.phases| && CountedUpTo(s, m) && p.ViewDone?
    ensures var after := Replaced(s.phases, m, hi, p);
            Tally(after, PhaseUnderWay(s.policy.limit)) == hi - m && Tally(after, COUNTED) == m
  {
    TallyWithin(Replaced(s.phases, m, hi, p), PhaseUnderWay(s.policy.limit), m, hi);
    TallyWithin(Replaced(s.phases, m, hi, p), COUNTED, 0, m);
  }

  /** A run as RegistrationsLetThrough considers it, in which as many registrations pass as that admits. */
  ghost predicate AttainsTheBound(s: System, k: nat, resetAt: int, expires: real, steps: seq<Step>, crowd: nat)
    requires |s.views| == |s.phases|
  {
    && Within(s, steps, resetAt, expires) && NeverCrowded(s, steps, crowd)
    && Passing(Run(s, steps)) == s.policy.limit - k - 1 + crowd
  }

  /** For every k below the limit and every crowd, if only enough workers come: a run in which the first
      registrations come one by one, and a crowd then races for the last place, lets through as many as the bound
      admits. */
  lemma {:induction false} CrowdAttainsTheBound(s: System, k: nat, resetAt: int, expires: real, at: real, crowd: nat)
    requires Initial(s, Register, k, resetAt, expires) && k < s.policy.limit && crowd >= 1
    requires s.policy.limit - k - 1 + crowd <= |s.phases| && at.Floor < resetAt && at < expires
    ensures exists steps :: AttainsTheBound(s, k, resetAt, expires, steps, crowd)
  {
    var m := s.policy.limit - k - 1;
    var solos, middle := Solos(s, k, resetAt, expires, m, at);
    var race, after := RaceForTheLastPlace(middle, m, m + crowd, at, resetAt, expires);
    LeadsConcat(s, solos, middle, race, after, at, 1, crowd);
    LeadingAttains(s, k, resetAt, expires, solos + race, after, at, crowd);
  }

  lemma {:induction false} LeadingAttains(s: System, k: nat, resetAt: int, expires: real,
                                          steps: seq<Step>, after: System, at: real, crowd: nat)
    requires s.route == Register && at.Floor < resetAt && at < expires && Leads(s, steps, after, at, crowd)
    requires Passing(after) == s.policy.limit - k - 1 + crowd
    ensures AttainsTheBound(s, k, resetAt, expires, steps, crowd)
  {
    forall i | 0 <= i < |steps| ensures StillOpen(s, steps, i, resetAt, expires) {}
  }

  lemma {:induction false} TurnsByWorkers(lo: nat, hi: nat, at: real)
    ensures ByWorkers(Turns(lo, hi, at), lo, hi) && AtOneTime(Turns(lo, hi, at), at)
    decreases hi
  {
    if hi <= lo {
    } else {
      TurnsByWorkers(lo, hi - 1, at);
    }
  }

  lemma {:induction false} NeverCrowdedMore(s: System, steps: seq<Step>, few: nat, many: nat)
    requires |s.views| == |s.phases| && NeverCrowded(s, steps, few) && few <= many
    ensures NeverCrowded(s, steps, many)
  {
    forall n | 0 <= n <= |steps| ensures Crowd(s, steps, n, many) { assert Crowd(s, steps, n, few); }
  }
}
