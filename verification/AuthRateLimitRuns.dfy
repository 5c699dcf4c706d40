/** Whole runs of the limiter for one client and route, one request after the other. */
module AuthRateLimitRuns {
  import opened Outcomes
  import opened AuthRateLimit

  ghost predicate InOrder(qs: seq<Post>, from: real) {
    |qs| > 0 ==> qs[0].Timed(from) && InOrder(qs[1..], qs[0].counted)
  }

  function Answers(route: Route, s: Slots, policy: Policy, qs: seq<Post>): (answers: seq<Answer>)
    ensures |answers| == |qs|
    decreases |qs|
  {
    if qs == [] then []
    else var (after, answer) := Serve(route, s, policy, qs[0]); [answer] + Answers(route, after, policy, qs[1..])
  }

  function IdealAnswers(route: Route, b: Bucket, policy: Policy, qs: seq<Post>): (answers: seq<Answer>)
    ensures |answers| == |qs|
    decreases |qs|
  {
    if qs == [] then []
    else var (after, answer) := Ideal(route, b, policy, qs[0]); [answer] + IdealAnswers(route, after, policy, qs[1..])
  }

  ghost predicate NeverMisled(route: Route, s: Slots, policy: Policy, qs: seq<Post>)
    decreases |qs|
  {
    |qs| > 0 ==>
      !Misled(route, s, policy, qs[0]) && NeverMisled(route, Serve(route, s, policy, qs[0]).0, policy, qs[1..])
  }

  /** Every request of the run is served as by the bucket, and the keys stand for the bucket after each. */
  ghost predicate AgreesThroughout(route: Route, s: Slots, b: Bucket, policy: Policy, qs: seq<Post>)
    decreases |qs|
  {
    |qs| > 0 ==>
      && Agrees(route, s, b, policy, qs[0])
      && AgreesThroughout(route, Serve(route, s, policy, qs[0]).0, Ideal(route, b, policy, qs[0]).0, policy, qs[1..])
  }

  /** A run follows the single bucket all the way exactly if no lingering key misleads a request. */
  lemma {:induction false} RunAgreesExactly(route: Route, s: Slots, b: Bucket, policy: Policy, qs: seq<Post>,
      from: real)
    requires Represents(s, b, from) && InOrder(qs, from)
    ensures AgreesThroughout(route, s, b, policy, qs) <==> NeverMisled(route, s, policy, qs)
    decreases |qs|
  {
    if qs == [] {
    } else {
      StepAgreesExactly(route, s, b, policy, qs[0], from);
      if Agrees(route, s, b, policy, qs[0]) {
        var after, bucket := Serve(route, s, policy, qs[0]).0, Ideal(route, b, policy, qs[0]).0;
        RunAgreesExactly(route, after, bucket, policy, qs[1..], qs[0].counted);
      }
    }
  }

  /** Such runs get the answers, with the same Retry-After, of a single bucket. */
  lemma {:induction false} RunRefinesBucket(route: Route, s: Slots, b: Bucket, policy: Policy, qs: seq<Post>,
      from: real)
    requires Represents(s, b, from) && InOrder(qs, from) && NeverMisled(route, s, policy, qs)
    ensures Answers(route, s, policy, qs) == IdealAnswers(route, b, policy, qs)
  {
    RunAgreesExactly(route, s, b, policy, qs, from);
    AgreeingAnswers(route, s, b, policy, qs);
  }

  lemma {:induction false} AgreeingAnswers(route: Route, s: Slots, b: Bucket, policy: Policy, qs: seq<Post>)
    requires AgreesThroughout(route, s, b, policy, qs)
    ensures Answers(route, s, policy, qs) == IdealAnswers(route, b, policy, qs)
    decreases |qs|
  {
    if qs == [] {
    } else {
      AgreeingAnswers(route, Serve(route, s, policy, qs[0]).0, Ideal(route, b, policy, qs[0]).0, policy, qs[1..]);
    }
  }

  // ---- which runs are never misled, told without the cache ----

  /** A request that arrives after a window has ended writes nothing until `d` seconds past its end. */
  predicate Clear(q: Post, end: int, d: real) {
    end <= q.start.Floor ==> end as real + d <= q.added
  }

  /** The bucket counts the request. */
  predicate Tallies(route: Route, b: Bucket, policy: Policy, q: Post) {
    (route == Register || q.status == 200) && BucketFor(b, policy.window, q.start.Floor).count < policy.limit
  }

  /** Following the single bucket: every request that it counts is counted at most `d` seconds after the whole
      second of its arrival, and is clear of the end of the window before. */
  ghost predicate ClearOfWindows(route: Route, b: Bucket, policy: Policy, qs: seq<Post>, d: real)
    decreases |qs|
  {
    |qs| > 0 ==>
      && (Tallies(route, b, policy, qs[0]) ==>
            && qs[0].counted - qs[0].start.Floor as real <= d
            && (b.Open? ==> Clear(qs[0], b.resetAt, d)))
      && ClearOfWindows(route, Ideal(route, b, policy, qs[0]).0, policy, qs[1..], d)
  }

  /** What is in the cache leaves it at most `d` seconds after the bucket's window has ended. */
  ghost predicate Fading(s: Slots, b: Bucket, at: real, d: real) {
    && Represents(s, b, at)
    && (Peek(s.counter, at).Some? ==> b.Open? && s.counter.value.expires <= b.resetAt as real + d)
    && (Peek(s.reset, at).Some? ==> b.Open? && s.reset.value.expires <= b.resetAt as real + d)
  }

  lemma {:induction false} FadingLater(s: Slots, b: Bucket, at: real, later: real, d: real)
    requires Fading(s, b, at, d) && at <= later
    ensures Fading(s, b, later, d)
  {
    RepresentsLater(s, b, at, later);
  }

  lemma {:induction false} ClearMeansNotMisled(route: Route, s: Slots, b: Bucket, policy: Policy, q: Post, d: real)
    requires Fading(s, b, q.start, d) && q.Viewed()
    requires b.Open? ==> Clear(q, b.resetAt, d)
    ensures !Misled(route, s, policy, q)
  {
  }

  lemma {:induction false} IncrementFades(s: Slots, b: Bucket, window: int, q: Post, d: real)
    requires Fading(s, b, q.start, d) && q.Viewed() && window >= 1
    requires q.counted - q.start.Floor as real <= d
    requires b.Open? ==> Clear(q, b.resetAt, d)
    ensures var now := q.start.Floor;
            var load := Load(s, window, now, q.start);
            var after := Increment(load.slots, load.resetAt, now, q).0;
            && (Peek(after.counter, q.counted).Some? ==> after.counter.value.expires <= load.resetAt as real + d)
            && (Peek(after.reset, q.counted).Some? ==> after.reset.value.expires <= load.resetAt as real + d)
  {
    LoadsTheBucket(s, b, window, q);
  }

  lemma {:induction false} UncountedFades(route: Route, s: Slots, b: Bucket, policy: Policy, q: Post, d: real)
    requires Fading(s, b, q.start, d) && q.Viewed() && !Tallies(route, b, policy, q)
    ensures Fading(Serve(route, s, policy, q).0, Ideal(route, b, policy, q).0, q.counted, d)
  {
    UncountedAgrees(route, s, b, policy, q);
    LoadsTheBucket(s, b, policy.window, q);
    FadingLater(s, b, q.start, q.counted, d);
  }

  lemma {:induction false} CountedFades(route: Route, s: Slots, b: Bucket, policy: Policy, q: Post, d: real)
    requires Fading(s, b, q.start, d) && q.Viewed() && Tallies(route, b, policy, q) && policy.window >= 1
    requires q.counted - q.start.Floor as real <= d && (b.Open? ==> Clear(q, b.resetAt, d))
    ensures Agrees(route, s, b, policy, q)
    ensures Fading(Serve(route, s, policy, q).0, Ideal(route, b, policy, q).0, q.counted, d)
  {
    CountedAgrees(route, s, b, policy, q, d);
    LoadsTheBucket(s, b, policy.window, q);
    IncrementFades(s, b, policy.window, q, d);
  }

  lemma {:induction false} CountedAgrees(route: Route, s: Slots, b: Bucket, policy: Policy, q: Post, d: real)
    requires Fading(s, b, q.start, d) && q.Viewed() && Tallies(route, b, policy, q)
    requires b.Open? ==> Clear(q, b.resetAt, d)
    ensures Agrees(route, s, b, policy, q)
  {
    if Begins(s, q) {
      LoadsTheBucket(s, b, policy.window, q);
      ClearMeansNotMisled(route, s, b, policy, q, d);
      BegunAgreesExactly(route, s, b, policy, q);
    } else {
      ContinuedAgrees(route, s, b, policy, q);
    }
  }

  lemma {:induction false} StepFades(route: Route, s: Slots, b: Bucket, policy: Policy, q: Post, at: real, d: real)
    requires Fading(s, b, at, d) && q.Timed(at) && policy.window >= 1
    requires Tallies(route, b, policy, q) ==>
               q.counted - q.start.Floor as real <= d && (b.Open? ==> Clear(q, b.resetAt, d))
    ensures !Misled(route, s, policy, q)
    ensures Fading(Serve(route, s, policy, q).0, Ideal(route, b, policy, q).0, q.counted, d)
  {
    FadingLater(s, b, at, q.start, d);
    StepAgreesExactly(route, s, b, policy, q, at);
    if Tallies(route, b, policy, q) {
      CountedFades(route, s, b, policy, q, d);
    } else {
      UncountedAgrees(route, s, b, policy, q);
      UncountedFades(route, s, b, policy, q, d);
    }
  }

  /** Runs that are clear of the bucket's windows are never misled. */
  lemma {:induction false} ClearRunsAreNeverMisled(route: Route, s: Slots, b: Bucket, policy: Policy, qs: seq<Post>,
                                                   from: real, d: real)
    requires Fading(s, b, from, d) && InOrder(qs, from) && policy.window >= 1
    requires ClearOfWindows(route, b, policy, qs, d)
    ensures NeverMisled(route, s, policy, qs)
    decreases |qs|
  {
    if qs == [] {
    } else {
      StepFades(route, s, b, policy, qs[0], from, d);
      var after, bucket := Serve(route, s, policy, qs[0]).0, Ideal(route, b, policy, qs[0]).0;
      ClearRunsAreNeverMisled(route, after, bucket, policy, qs[1..], qs[0].counted, d);
    }
  }

  /** A cruder condition that does not even follow the bucket: no request is counted later than `d` seconds after
      the second of its arrival, and all are clear of any window an earlier one could have begun. */
  ghost predicate Spaced(qs: seq<Post>, window: int, d: real) {
    && (forall i :: 0 <= i < |qs| ==> qs[i].counted - qs[i].start.Floor as real <= d)
    && (forall i, j :: 0 <= i < j < |qs| ==> Clear(qs[j], qs[i].start.Floor + window, d))
  }

  lemma {:induction false} SpacedRunsAreClear(route: Route, b: Bucket, policy: Policy, qs: seq<Post>, d: real)
    requires Spaced(qs, policy.window, d)
    requires b.Open? ==> forall j :: 0 <= j < |qs| ==> Clear(qs[j], b.resetAt, d)
    ensures ClearOfWindows(route, b, policy, qs, d)
    decreases |qs|
  {
    if qs == [] {
    } else {
      SpacedTail(qs, policy.window, d);
      assert b.Open? ==> forall j :: 0 <= j < |qs[1..]| ==> Clear(qs[1..][j], b.resetAt, d);
      SpacedRunsAreClear(route, Ideal(route, b, policy, qs[0]).0, policy, qs[1..], d);
    }
  }

  lemma {:induction false} SpacedTail(qs: seq<Post>, window: int, d: real)
    requires |qs| > 0 && Spaced(qs, window, d)
    ensures Spaced(qs[1..], window, d)
    ensures forall j :: 0 <= j < |qs[1..]| ==> Clear(qs[1..][j], qs[0].start.Floor + window, d)
  {
  }

  // ---- dictionaries left by an older release ----

  function LegacySlots(count: nat, resetAt: int, expires: real): Slots {
    Slots(Some(Entry(Legacy(count, resetAt), expires)), None)
  }

  function TwoKeySlots(count: nat, resetAt: int, expires: real): Slots {
    Slots(Some(Entry(Number(count), expires)), Some(Entry(resetAt, expires)))
  }

  /** Two states that stand for the same running bucket answer alike as long as requests arrive before it ends. */
  lemma {:induction false} EarlyRequestsAgree(route: Route, s: Slots, t: Slots, b: Bucket, policy: Policy,
                                              qs: seq<Post>, from: real)
    requires Represents(s, b, from) && Represents(t, b, from) && b.Open? && InOrder(qs, from)
    requires forall i :: 0 <= i < |qs| ==> qs[i].start.Floor < b.resetAt
    ensures Answers(route, s, policy, qs) == Answers(route, t, policy, qs)
    decreases |qs|
  {
    if qs == [] {
    } else {
      var q := qs[0];
      RepresentsLater(s, b, from, q.start);
      RepresentsLater(t, b, from, q.start);
      StepAgreesExactly(route, s, b, policy, q, from);
      StepAgreesExactly(route, t, b, policy, q, from);
      if !(route == Login && q.status == 302) {
        EarlyRequestsAgree(route, Serve(route, s, policy, q).0, Serve(route, t, policy, q).0,
                           Ideal(route, b, policy, q).0, policy, qs[1..], q.counted);
      }
    }
  }

  /** A live dictionary serves as the two keys that would say the same, for all requests that arrive before its
      window ends. */
  lemma {:induction false} LegacyRunsAgreeInTheirWindow(route: Route, count: nat, resetAt: int, expires: real,
                                                        policy: Policy, qs: seq<Post>, from: real)
    requires 0 < resetAt && from < resetAt as real <= expires && InOrder(qs, from)
    requires forall i :: 0 <= i < |qs| ==> qs[i].start.Floor < resetAt
    ensures Answers(route, LegacySlots(count, resetAt, expires), policy, qs)
            == Answers(route, TwoKeySlots(count, resetAt, expires), policy, qs)
  {
    EarlyRequestsAgree(route, LegacySlots(count, resetAt, expires), TwoKeySlots(count, resetAt, expires),
                       Open(count, resetAt), policy, qs, from);
  }

  /** And beyond it, if the run is clear of the bucket's windows. */
  lemma {:induction false} LegacyRunsAgreeWhenClear(route: Route, count: nat, resetAt: int, expires: real,
                                                    policy: Policy, qs: seq<Post>, from: real, d: real)
    requires 0 < resetAt && from < resetAt as real <= expires <= resetAt as real + d && InOrder(qs, from)
    requires policy.window >= 1 && ClearOfWindows(route, Open(count, resetAt), policy, qs, d)
    ensures Answers(route, LegacySlots(count, resetAt, expires), policy, qs)
            == Answers(route, TwoKeySlots(count, resetAt, expires), policy, qs)
  {
    var b := Open(count, resetAt);
    ClearRunsAreNeverMisled(route, LegacySlots(count, resetAt, expires), b, policy, qs, from, d);
    ClearRunsAreNeverMisled(route, TwoKeySlots(count, resetAt, expires), b, policy, qs, from, d);
    RunRefinesBucket(route, LegacySlots(count, resetAt, expires), b, policy, qs, from);
    RunRefinesBucket(route, TwoKeySlots(count, resetAt, expires), b, policy, qs, from);
  }

  /** The old count is still there when the request is counted, and is no less than the limit. */
  ghost predicate Outcounts(s: Slots, policy: Policy, q: Post) {
    !LegacyAt(s, q.start) && NumberAt(s, q.reread).Some? && s.counter.value.value.n >= policy.limit
  }

  /** The first request after the end of the window: two states that stood for the same bucket answer it
      differently exactly if it is a failed login and the old count outlives the window in one of them only. */
  lemma {:induction false} FirstAnswerAfterWindow(route: Route, s: Slots, t: Slots, b: Bucket, policy: Policy, q: Post)
    requires Represents(s, b, q.start) && Represents(t, b, q.start) && q.Viewed()
    requires b.Over(q.start.Floor)
    ensures Serve(route, s, policy, q).1 == Serve(route, t, policy, q).1
            <==> !(route == Login && Counted(route, policy, q) && Outcounts(s, policy, q) != Outcounts(t, policy, q))
  {
    LoadsTheBucket(s, b, policy.window, q);
    LoadsTheBucket(t, b, policy.window, q);
  }

  function SlotsAfter(route: Route, s: Slots, policy: Policy, qs: seq<Post>): Slots
    decreases |qs|
  {
    if qs == [] then s else SlotsAfter(route, Serve(route, s, policy, qs[0]).0, policy, qs[1..])
  }

  lemma {:induction false} AnswersThenOne(route: Route, s: Slots, policy: Policy, qs: seq<Post>, q: Post)
    ensures Answers(route, s, policy, qs + [q])
            == Answers(route, s, policy, qs) + [Serve(route, SlotsAfter(route, s, policy, qs), policy, q).1]
    decreases |qs|
  {
    if qs == [] {
      assert qs + [q] == [q] && [q][1..] == [];
    } else {
      assert (qs + [q])[1..] == qs[1..] + [q];
      AnswersThenOne(route, Serve(route, s, policy, qs[0]).0, policy, qs[1..], q);
    }
  }

  lemma {:induction false} EarlySlotsAgree(route: Route, s: Slots, b: Bucket, policy: Policy, qs: seq<Post>, q: Post,
                                           from: real) returns (after: Bucket)
    requires Represents(s, b, from) && b.Open? && InOrder(qs + [q], from)
    requires forall i :: 0 <= i < |qs| ==> qs[i].start.Floor < b.resetAt && !(route == Login && qs[i].status == 302)
    ensures after == BucketAfter(route, b, policy, qs) && after.Open? && after.resetAt == b.resetAt
    ensures Represents(SlotsAfter(route, s, policy, qs), after, q.start) && q.Viewed()
    decreases |qs|
  {
    if qs == [] {
      assert (qs + [q])[0] == q;
      RepresentsLater(s, b, from, q.start);
      after := b;
    } else {
      assert (qs + [q])[0] == qs[0] && (qs + [q])[1..] == qs[1..] + [q];
      RepresentsLater(s, b, from, qs[0].start);
      StepAgreesExactly(route, s, b, policy, qs[0], from);
      after := EarlySlotsAgree(route, Serve(route, s, policy, qs[0]).0, Ideal(route, b, policy, qs[0]).0,
                               policy, qs[1..], q, qs[0].counted);
    }
  }

  function BucketAfter(route: Route, b: Bucket, policy: Policy, qs: seq<Post>): Bucket
    decreases |qs|
  {
    if qs == [] then b else BucketAfter(route, Ideal(route, b, policy, qs[0]).0, policy, qs[1..])
  }

  /** A dictionary and its two keys, over a run without a successful login that lasts to the first request after
      the end of the window: the answers are the same exactly unless that request is a failed login and the old
      count outlives the window in one of the two only. */
  lemma {:induction false} LegacyRunsAgreeExactly(route: Route, count: nat, resetAt: int, expires: real,
                                                  policy: Policy, qs: seq<Post>, q: Post, from: real)
    requires 0 < resetAt && from < resetAt as real <= expires && InOrder(qs + [q], from)
    requires forall i :: 0 <= i < |qs| ==> qs[i].start.Floor < resetAt && !(route == Login && qs[i].status == 302)
    requires resetAt <= q.start.Floor
    ensures var l, t := LegacySlots(count, resetAt, expires), TwoKeySlots(count, resetAt, expires);
            Answers(route, l, policy, qs + [q]) == Answers(route, t, policy, qs + [q])
            <==> !(route == Login && Counted(route, policy, q)
                   && Outcounts(SlotsAfter(route, l, policy, qs), policy, q)
                      != Outcounts(SlotsAfter(route, t, policy, qs), policy, q))
  {
    var l, t, b := LegacySlots(count, resetAt, expires), TwoKeySlots(count, resetAt, expires), Open(count, resetAt);
    var after := EarlySlotsAgree(route, l, b, policy, qs, q, from);
    var same := EarlySlotsAgree(route, t, b, policy, qs, q, from);
    InOrderBefore(qs, q, from);
    EarlyRequestsAgree(route, l, t, b, policy, qs, from);
    AnswersThenOne(route, l, policy, qs, q);
    AnswersThenOne(route, t, policy, qs, q);
    var early := Answers(route, l, policy, qs);
    assert (early + [Serve(route, SlotsAfter(route, l, policy, qs), policy, q).1])[|early|]
        == Serve(route, SlotsAfter(route, l, policy, qs), policy, q).1;
    assert (early + [Serve(route, SlotsAfter(route, t, policy, qs), policy, q).1])[|early|]
        == Serve(route, SlotsAfter(route, t, policy, qs), policy, q).1;
    FirstAnswerAfterWindow(route, SlotsAfter(route, l, policy, qs), SlotsAfter(route, t, policy, qs), after, policy, q);
  }

  lemma {:induction false} InOrderBefore(qs: seq<Post>, q: Post, from: real)
    requires InOrder(qs + [q], from)
    ensures InOrder(qs, from)
    decreases |qs|
  {
    if qs == [] {
    } else {
      assert (qs + [q])[0] == qs[0] && (qs + [q])[1..] == qs[1..] + [q];
      InOrderBefore(qs[1..], q, qs[0].counted);
    }
  }

  /** Without such a condition the two can differ: a failed login just before the end of the window gives the
      dictionary's successor keys a longer life, and the next one, just after it, is refused. */
  lemma {:induction false} LegacyRunsMayDiffer()
    ensures var qs := [Post(0.5, 0.5, 0.5, 0.5, 200), Post(5.25, 5.25, 5.25, 5.25, 200)];
            && InOrder(qs, 0.0)
            && Answers(Login, LegacySlots(1, 5, 5.0), Policy(2, 5), qs) == [Viewed(200), TooMany(5)]
            && Answers(Login, TwoKeySlots(1, 5, 5.0), Policy(2, 5), qs) == [Viewed(200), Viewed(200)]
  {
    var policy := Policy(2, 5);
    var first, second := Post(0.5, 0.5, 0.5, 0.5, 200), Post(5.25, 5.25, 5.25, 5.25, 200);
    var qs := [first, second];
    assert qs[1..] == [second] && [second][1..] == [];
    var s := Serve(Login, LegacySlots(1, 5, 5.0), policy, first);
    assert s == (Slots(Some(Entry(Number(2), 5.5)), Some(Entry(5, 5.5))), Viewed(200));
    assert Serve(Login, s.0, policy, second).1 == TooMany(5);
    var t := Serve(Login, TwoKeySlots(1, 5, 5.0), policy, first);
    assert t == (Slots(Some(Entry(Number(2), 5.0)), Some(Entry(5, 5.0))), Viewed(200));
    assert Serve(Login, t.0, policy, second).1 == Viewed(200);
  }

  // ---- Retry-After ----

  /** No window on record ends more than `window` seconds from now. */
  ghost predicate NearEnds(s: Slots, window: int, now: int) {
    && (s.reset.Some? ==> s.reset.value.value <= now + window)
    && (s.counter.Some? && s.counter.value.value.Legacy? ==> s.counter.value.value.resetAt <= now + window)
  }

  lemma {:induction false} StepNearEnds(route: Route, s: Slots, policy: Policy, q: Post, from: real)
    requires NearEnds(s, policy.window, from.Floor) && q.Timed(from) && policy.window >= 1
    ensures var (after, answer) := Serve(route, s, policy, q);
            && NearEnds(after, policy.window, q.counted.Floor)
            && (answer.TooMany? ==> 1 <= answer.retryAfter <= policy.window)
  {
    var now := q.start.Floor;
    var load := Load(s, policy.window, now, q.start);
    assert load.resetAt <= now + policy.window;
    assert NearEnds(Increment(load.slots, load.resetAt, now, q).0, policy.window, now);
  }

  /** On every run, misled requests or not, a refused client is told to wait at least 1 and at most `window` seconds. */
  lemma {:induction false} RetryAfterWithinWindow(route: Route, s: Slots, policy: Policy, qs: seq<Post>, from: real)
    requires NearEnds(s, policy.window, from.Floor) && InOrder(qs, from) && policy.window >= 1
    ensures forall i :: 0 <= i < |qs| && Answers(route, s, policy, qs)[i].TooMany? ==>
              1 <= Answers(route, s, policy, qs)[i].retryAfter <= policy.window
    decreases |qs|
  {
    if qs == [] {
    } else {
      StepNearEnds(route, s, policy, qs[0], from);
      RetryAfterWithinWindow(route, Serve(route, s, policy, qs[0]).0, policy, qs[1..], qs[0].counted);
    }
  }

  // ---- how many registrations reach the view ----

  /** The requests that arrived in the seconds lo to hi and reached the view. */
  function Reached(qs: seq<Post>, answers: seq<Answer>, lo: int, hi: int): nat
    requires |qs| == |answers|
  {
    if qs == [] then 0
    else (if lo <= qs[0].start.Floor <= hi && answers[0].Viewed? then 1 else 0) + Reached(qs[1..], answers[1..], lo, hi)
  }

  function Left(b: Bucket, policy: Policy): nat {
    Max(policy.limit - (if b.Open? then b.count else 0), 0)
  }

  lemma {:induction false} NoneReachedTooLate(qs: seq<Post>, answers: seq<Answer>, lo: int, hi: int, from: real)
    requires |qs| == |answers| && InOrder(qs, from) && hi < from.Floor
    ensures Reached(qs, answers, lo, hi) == 0
  {
    if qs == [] {
    } else {
      NoneReachedTooLate(qs[1..], answers[1..], lo, hi, qs[0].counted);
    }
  }

  /** From an open bucket: its remainder until it ends, and one more bucket in the `window` seconds after that. */
  lemma {:induction false} ReachedFromOpenBucket(b: Bucket, policy: Policy, qs: seq<Post>, from: real, lo: int, hi: int)
    requires b.Open? && InOrder(qs, from) && hi < b.resetAt + policy.window && policy.window >= 1
    ensures var reached := Reached(qs, IdealAnswers(Register, b, policy, qs), lo, hi);
            reached <= Left(b, policy) + (if hi < b.resetAt then 0 else Max(policy.limit, 0))
    decreases |qs|
  {
    if qs == [] {
    } else {
      var q := qs[0];
      var after := Ideal(Register, b, policy, q).0;
      if q.start.Floor > hi {
        NoneReachedTooLate(qs, IdealAnswers(Register, b, policy, qs), lo, hi, q.start);
      } else {
        ReachedFromOpenBucket(after, policy, qs[1..], q.counted, lo, hi);
      }
    }
  }

  /** Any span of `window` seconds, wherever it starts, sees at most twice the limit. */
  lemma {:induction false} BucketReachesTwiceTheLimit(b: Bucket, policy: Policy, qs: seq<Post>, from: real, lo: int)
    requires (b.Open? ==> b.count >= 0) && InOrder(qs, from) && policy.window >= 1
    ensures Reached(qs, IdealAnswers(Register, b, policy, qs), lo, lo + policy.window) <= 2 * Max(policy.limit, 0)
    decreases |qs|
  {
    if qs == [] {
    } else {
      var q := qs[0];
      var (after, answer) := Ideal(Register, b, policy, q);
      if q.start.Floor > lo + policy.window {
        NoneReachedTooLate(qs, IdealAnswers(Register, b, policy, qs), lo, lo + policy.window, q.start);
      } else if lo <= q.start.Floor && answer.Viewed? {
        ReachedFromOpenBucket(after, policy, qs[1..], q.counted, lo, lo + policy.window);
      } else {
        BucketReachesTwiceTheLimit(after, policy, qs[1..], q.counted, lo);
      }
    }
  }

  lemma {:induction false} OpenBucketReachesItsRemainder(b: Bucket, policy: Policy, qs: seq<Post>, from: real,
      lo: int, hi: int)
    requires b.Open? && InOrder(qs, from)
    requires forall i :: 0 <= i < |qs| ==> lo <= qs[i].start.Floor < b.resetAt && qs[i].start.Floor <= hi
    ensures var reached := Reached(qs, IdealAnswers(Register, b, policy, qs), lo, hi);
            reached == Min(|qs|, Left(b, policy))
    decreases |qs|
  {
    if qs == [] {
    } else {
      OpenBucketReachesItsRemainder(Ideal(Register, b, policy, qs[0]).0, policy, qs[1..], qs[0].counted, lo, hi);
    }
  }

  /** Within one window exactly the first `limit` registrations reach the view. */
  lemma {:induction false} BucketReachesTheLimit(b: Bucket, policy: Policy, qs: seq<Post>, from: real)
    requires (b.Open? ==> b.count >= 0) && b.Over(from.Floor)
    requires InOrder(qs, from) && policy.window >= 1 && |qs| > 0
    requires forall i :: 0 <= i < |qs| ==> qs[0].start.Floor <= qs[i].start.Floor < qs[0].start.Floor + policy.window
    ensures var first := qs[0].start.Floor;
            var reached := Reached(qs, IdealAnswers(Register, b, policy, qs), first, first + policy.window);
            reached == Min(|qs|, Max(policy.limit, 0))
  {
    var first := qs[0].start.Floor;
    var bucket := Open(0, first + policy.window);
    assert BucketFor(b, policy.window, first) == bucket == BucketFor(bucket, policy.window, first);
    if policy.limit > 0 {
      var after := Ideal(Register, b, policy, qs[0]).0;
      OpenBucketReachesItsRemainder(after, policy, qs[1..], qs[0].counted, first, first + policy.window);
    } else {
      NothingReached(b, policy, qs, from, first, first + policy.window);
    }
  }

  lemma {:induction false} NothingReached(b: Bucket, policy: Policy, qs: seq<Post>, from: real, lo: int, hi: int)
    requires policy.limit <= 0 && InOrder(qs, from) && (b.Open? ==> b.count >= 0)
    ensures Reached(qs, IdealAnswers(Register, b, policy, qs), lo, hi) == 0
    decreases |qs|
  {
    if qs == [] {
    } else {
      NothingReached(Ideal(Register, b, policy, qs[0]).0, policy, qs[1..], qs[0].counted, lo, hi);
    }
  }

  /** The two-key code keeps both bounds on every run in which no request is misled. */
  lemma {:induction false} UnmisledRegistrationsBounded(policy: Policy, qs: seq<Post>, from: real, lo: int)
    requires InOrder(qs, from) && policy.window >= 1 && NeverMisled(Register, Slots(None, None), policy, qs)
    ensures RegistrationsKeepBounds(policy, qs, lo)
  {
    RunRefinesBucket(Register, Slots(None, None), Closed, policy, qs, from);
    BucketReachesTwiceTheLimit(Closed, policy, qs, from, lo);
    if |qs| > 0
       && (forall i :: 0 <= i < |qs| ==> qs[0].start.Floor <= qs[i].start.Floor < qs[0].start.Floor + policy.window) {
      BucketReachesTheLimit(Closed, policy, qs, from);
    }
  }

  /** At most twice the limit reach the view in any span of a window from second lo; and of requests that all
      arrive within one window exactly the first `limit` do. */
  ghost predicate RegistrationsKeepBounds(policy: Policy, qs: seq<Post>, lo: int) {
    var answers := Answers(Register, Slots(None, None), policy, qs);
    && Reached(qs, answers, lo, lo + policy.window) <= 2 * Max(policy.limit, 0)
    && (|qs| > 0 && (forall i :: 0 <= i < |qs| ==>
                       qs[0].start.Floor <= qs[i].start.Floor < qs[0].start.Floor + policy.window) ==>
          var first := qs[0].start.Floor;
          Reached(qs, answers, first, first + policy.window) == Min(|qs|, Max(policy.limit, 0)))
  }

  /** Among them are all runs that are clear of the bucket's windows. */
  lemma {:induction false} RegistrationsBounded(policy: Policy, qs: seq<Post>, from: real, lo: int, d: real)
    requires InOrder(qs, from) && policy.window >= 1 && ClearOfWindows(Register, Closed, policy, qs, d)
    ensures RegistrationsKeepBounds(policy, qs, lo)
  {
    ClearRunsAreNeverMisled(Register, Slots(None, None), Closed, policy, qs, from, d);
    UnmisledRegistrationsBounded(policy, qs, from, lo);
  }

  // ---- what lingering keys let through ----

  /** n registrations at one instant, answered at once. */
  function Burst(n: nat, t: real): seq<Post> {
    seq(n, i => Post(t, t, t, t, 200))
  }

  /** How many of a burst reach the view from the slots `s`. */
  function BurstReached(s: Slots, policy: Policy, n: nat, t: real): nat {
    Reached(Burst(n, t), Answers(Register, s, policy, Burst(n, t)), t.Floor, t.Floor)
  }

  lemma {:induction false} BurstStep(s: Slots, policy: Policy, n: nat, t: real)
    requires n > 0
    ensures var (after, answer) := Serve(Register, s, policy, Post(t, t, t, t, 200));
            BurstReached(s, policy, n, t) == (if answer.Viewed? then 1 else 0) + BurstReached(after, policy, n - 1, t)
  {
    assert Burst(n, t)[1..] == Burst(n - 1, t);
    assert Answers(Register, s, policy, Burst(n, t))[1..]
        == Answers(Register, Serve(Register, s, policy, Post(t, t, t, t, 200)).0, policy, Burst(n - 1, t));
  }

  /** In a running window the burst gets what is left of it. */
  lemma {:induction false} RunningBurst(s: Slots, policy: Policy, n: nat, t: real)
    requires Running(s, t) && NumberAt(s, t).Some?
    ensures BurstReached(s, policy, n, t) == Min(n, Max(policy.limit - NumberAt(s, t).value, 0))
    decreases n
  {
    if n == 0 {
    } else {
      BurstStep(s, policy, n, t);
      RunningBurst(Serve(Register, s, policy, Post(t, t, t, t, 200)).0, policy, n - 1, t);
    }
  }

  /** While the reset key of an ended window lingers, all of the burst gets through. */
  lemma {:induction false} LingeringBurst(s: Slots, policy: Policy, n: nat, t: real)
    requires policy.limit >= 1 && !LegacyAt(s, t) && Peek(s.reset, t).Some? && !Running(s, t)
    ensures BurstReached(s, policy, n, t) == n
    decreases n
  {
    if n == 0 {
    } else {
      BurstStep(s, policy, n, t);
      LingeringBurst(Serve(Register, s, policy, Post(t, t, t, t, 200)).0, policy, n - 1, t);
    }
  }

  /** One registration, then a burst at any instant after its window has ended. As long as the reset key lingers,
      that is for as long as the first view took plus the fraction of a second at which it arrived, the whole
      burst gets through; while only the counter lingers, one too few does; then the limit holds. */
  lemma {:induction false} BurstAfterWindow(policy: Policy, q: Post, t: real, n: nat)
    requires policy.limit >= 1 && policy.window >= 1 && q.Timed(0.0) && q.counted <= t
    requires q.start.Floor + policy.window <= t.Floor
    ensures var qs := [q] + Burst(n, t);
            var window := policy.window as real;
            && InOrder(qs, 0.0)
            && Reached(qs, Answers(Register, Slots(None, None), policy, qs), t.Floor, t.Floor)
               == if t < q.added + window then n
                  else if t < q.counted + window then Min(n, Max(policy.limit - 1, 1))
                  else Min(n, policy.limit)
  {
    var qs, window := [q] + Burst(n, t), policy.window as real;
    assert qs[1..] == Burst(n, t);
    BurstInOrder(n, t, q.counted);
    var s := Serve(Register, Slots(None, None), policy, q).0;
    assert s == Slots(Some(Entry(Number(1), q.counted + window)),
                      Some(Entry(q.start.Floor + policy.window, q.added + window)));
    if t < q.added + window {
      LingeringBurst(s, policy, n, t);
    } else if n > 0 {
      BurstStep(s, policy, n, t);
      RunningBurst(Serve(Register, s, policy, Post(t, t, t, t, 200)).0, policy, n - 1, t);
    }
  }

  lemma {:induction false} BurstInOrder(n: nat, t: real, from: real)
    requires 0.0 <= from <= t
    ensures InOrder(Burst(n, t), from)
  {
    if n == 0 {
    } else {
      assert Burst(n, t)[1..] == Burst(n - 1, t);
      BurstInOrder(n - 1, t, t);
    }
  }

  /** Under every policy, with views that take no time at all: after one registration at a fraction of second 0
      any number pass at the very end of its window. */
  lemma {:induction false} InstantViewsVoidTheLimit(policy: Policy, fraction: real, n: nat)
    requires policy.limit >= 1 && policy.window >= 1 && 0.0 < fraction < 1.0
    ensures var qs := [Post(fraction, fraction, fraction, fraction, 200)] + Burst(n, policy.window as real);
            && InOrder(qs, 0.0)
            && Reached(qs, Answers(Register, Slots(None, None), policy, qs), policy.window, policy.window) == n
  {
    BurstAfterWindow(policy, Post(fraction, fraction, fraction, fraction, 200), policy.window as real, n);
  }
}
