/** The login and registration limiter: a counter and a window end under two expiring cache keys.

    A request carries four clock readings: `start`, read before the view and truncated to whole seconds, and
    the instants after the view at which the reset key is added, the counter is read again and it is counted up.
    The two key families have distinct prefixes, so each is a map of its own. */
module AuthRateLimit {
  import opened Outcomes

  /** The cache key suffix: request path and client address. */
  datatype Client = Client(path: string, ip: string)

  /** What the counter key holds: a number, or a dictionary left by an older release
      (0 stands for a missing field). */
  datatype Count = Number(n: int) | Legacy(count: int, resetAt: int)

  datatype Entry<T> = Entry(value: T, expires: real)

  datatype Slots = Slots(counter: Option<Entry<Count>>, reset: Option<Entry<int>>)

  datatype Policy = Policy(limit: int, window: int)

  /** Every limited path but the login is served the way registration is. */
  datatype Route = Login | Register

  /** A POST by a client that is not trusted; `status` is what the view answers. */
  datatype Post = Post(start: real, added: real, reread: real, counted: real, status: int) {
    ghost predicate Timed(after: real) {
      0.0 <= after <= start && Viewed()
    }

    ghost predicate Viewed() {
      start <= added <= reread <= counted
    }
  }

  datatype Answer = Viewed(status: int) | TooMany(retryAfter: int)

  function Max(a: int, b: int): int {
    if a < b then b else a
  }

  function Min(a: int, b: int): int {
    if a < b then a else b
  }

  // ---- the cache, as values ----

  function Peek<T>(slot: Option<Entry<T>>, at: real): Option<T> {
    if slot.Some? && at < slot.value.expires then Some(slot.value.value) else None
  }

  function Fresh<T>(value: T, ttl: int, at: real): Option<Entry<T>> {
    Some(Entry(value, at + ttl as real))
  }

  /** cache.add: an entry that is still live is left alone. */
  function Added<T>(slot: Option<Entry<T>>, value: T, ttl: int, at: real): Option<Entry<T>> {
    if Peek(slot, at).Some? then slot else Fresh(value, ttl, at)
  }

  /** cache.incr keeps the expiry; it fails on a missing key or a value that is no number. */
  function Bumped(slot: Option<Entry<Count>>, at: real): Option<Entry<Count>> {
    match Peek<Count>(slot, at)
    case Some(Number(n)) => Some(Entry(Number(n + 1), slot.value.expires))
    case _ => None
  }

  // ---- the middleware, as functions of the client's two slots ----

  datatype Loaded = Loaded(slots: Slots, count: int, resetAt: int)

  function Load(s: Slots, window: int, now: int, at: real): Loaded {
    var raw := Peek(s.counter, at);
    if raw.Some? && raw.value.Legacy? then
      var resetAt := if raw.value.resetAt == 0 then now + window else raw.value.resetAt;
      if now >= resetAt then Loaded(Slots(None, None), 0, now + window)
      else Loaded(s, raw.value.count, resetAt)
    else
      var reset := Peek(s.reset, at);
      if reset.None? || now >= reset.value then Loaded(s, 0, now + window)
      else Loaded(s, if raw.Some? then raw.value.n else 0, reset.value)
  }

  function Increment(s: Slots, resetAt: int, now: int, q: Post): (Slots, int) {
    var ttl := Max(resetAt - now, 1);
    var reset := Added(s.reset, resetAt, ttl, q.added);
    match Peek<Count>(s.counter, q.reread)
    case Some(Legacy(count, _)) => (Slots(Fresh(Number(count + 1), ttl, q.counted), reset), count + 1)
    case None => (Slots(Fresh(Number(1), ttl, q.counted), reset), 1)
    case Some(Number(n)) =>
      var bumped := Bumped(s.counter, q.counted);
      (Slots(if bumped.Some? then bumped else Fresh(Number(n + 1), ttl, q.counted), reset), n + 1)
  }

  function Serve(route: Route, s: Slots, policy: Policy, q: Post): (Slots, Answer) {
    var now := q.start.Floor;
    var load := Load(s, policy.window, now, q.start);
    var refusal := TooMany(Max(load.resetAt - now, 1));
    match route
    case Login =>
      if q.status == 302 then (Slots(None, None), Viewed(302))
      else if load.count >= policy.limit then (load.slots, refusal)
      else if q.status == 200 then
        var (after, count) := Increment(load.slots, load.resetAt, now, q);
        (after, if count > policy.limit then refusal else Viewed(200))
      else (load.slots, Viewed(q.status))
    case Register =>
      if load.count >= policy.limit then (load.slots, refusal)
      else (Increment(load.slots, load.resetAt, now, q).0, Viewed(q.status))
  }

  // ---- the same code over a mutable cache shared by all clients ----

  class Cache {
    var counters: map<Client, Entry<Count>>
    var resets: map<Client, Entry<int>>

    ghost function At(c: Client): Slots
      reads this
    {
      Slots(if c in counters then Some(counters[c]) else None,
            if c in resets then Some(resets[c]) else None)
    }

    /** Only the keys of `c` differ from the two maps given. */
    ghost predicate OnlyTouched(c: Client, before: map<Client, Entry<Count>>, beforeResets: map<Client, Entry<int>>)
      reads this
    {
      counters - {c} == before - {c} && resets - {c} == beforeResets - {c}
    }

    constructor ()
      ensures forall c :: At(c) == Slots(None, None)
    {
      counters, resets := map[], map[];
    }

    method Forget(c: Client)
      modifies this
      ensures At(c) == Slots(None, None)
      ensures OnlyTouched(c, old(counters), old(resets))
    {
      counters := counters - {c};
      resets := resets - {c};
    }

    method SetCounter(c: Client, n: int, ttl: int, at: real)
      modifies this`counters
      ensures counters == old(counters)[c := Entry(Number(n), at + ttl as real)]
    {
      counters := counters[c := Entry(Number(n), at + ttl as real)];
    }

    method AddReset(c: Client, resetAt: int, ttl: int, at: real)
      modifies this`resets
      ensures At(c).reset == Added(old(At(c).reset), resetAt, ttl, at)
      ensures resets - {c} == old(resets) - {c}
    {
      if c !in resets || resets[c].expires <= at {
        resets := resets[c := Entry(resetAt, at + ttl as real)];
      }
    }

    method IncrementCounter(c: Client, at: real) returns (n: Option<int>)
      modifies this`counters
      ensures n.Some? <==> Bumped(old(At(c).counter), at).Some?
      ensures n.Some? ==>
                At(c).counter == Bumped(old(At(c).counter), at) && At(c).counter.value.value == Number(n.value)
      ensures n.None? ==> counters == old(counters)
      ensures counters - {c} == old(counters) - {c}
    {
      n := None;
      if c in counters && at < counters[c].expires {
        match counters[c].value
        case Number(k) =>
          counters := counters[c := Entry(Number(k + 1), counters[c].expires)];
          n := Some(k + 1);
        case Legacy(_, _) =>
      }
    }

    method LoadAuthCounter(c: Client, window: int, now: int, at: real) returns (count: int, resetAt: int)
      modifies this
      ensures Loaded(At(c), count, resetAt) == Load(old(At(c)), window, now, at)
      ensures OnlyTouched(c, old(counters), old(resets))
    {
      if c in counters && at < counters[c].expires && counters[c].value.Legacy? {
        var raw := counters[c].value;
        resetAt := if raw.resetAt == 0 then now + window else raw.resetAt;
        if now >= resetAt {
          Forget(c);
          return 0, now + window;
        }
        return raw.count, resetAt;
      }
      if c !in resets || resets[c].expires <= at || now >= resets[c].value {
        return 0, now + window;
      }
      resetAt := resets[c].value;
      count := if c in counters && at < counters[c].expires then counters[c].value.n else 0;
    }

    method IncrementAuthCounter(c: Client, resetAt: int, now: int, q: Post) returns (count: int)
      modifies this
      ensures (At(c), count) == Increment(old(At(c)), resetAt, now, q)
      ensures OnlyTouched(c, old(counters), old(resets))
    {
      var ttl := Max(resetAt - now, 1);
      AddReset(c, resetAt, ttl, q.added);
      if c !in counters || counters[c].expires <= q.reread {
        SetCounter(c, 1, ttl, q.counted);
        return 1;
      }
      match counters[c].value
      case Legacy(seen, _) =>
        count := seen + 1;
        SetCounter(c, count, ttl, q.counted);
      case Number(seen) =>
        var incremented := IncrementCounter(c, q.counted);
        if incremented.Some? {
          count := incremented.value;
        } else {
          count := seen + 1;
          SetCounter(c, count, ttl, q.counted);
        }
    }

    /** One POST of a client: its answer and its two slots are those of Serve; no other client is affected. */
    method Handle(route: Route, c: Client, policy: Policy, q: Post) returns (answer: Answer)
      modifies this
      ensures (At(c), answer) == Serve(route, old(At(c)), policy, q)
      ensures OnlyTouched(c, old(counters), old(resets))
    {
      var now := q.start.Floor;
      var count, resetAt := LoadAuthCounter(c, policy.window, now, q.start);
      if route == Login {
        var blocked := count >= policy.limit;
        if q.status == 302 {
          Forget(c);
          return Viewed(302);
        }
        if blocked {
          return TooMany(Max(resetAt - now, 1));
        }
        if q.status == 200 {
          var newCount := IncrementAuthCounter(c, resetAt, now, q);
          if newCount > policy.limit {
            return TooMany(Max(resetAt - now, 1));
          }
        }
        return Viewed(q.status);
      }
      if count >= policy.limit {
        return TooMany(Max(resetAt - now, 1));
      }
      var _ := IncrementAuthCounter(c, resetAt, now, q);
      return Viewed(q.status);
    }
  }

  // ---- the intended limiter: one bucket per client ----

  datatype Bucket = Closed | Open(count: int, resetAt: int) {
    predicate Over(now: int) {
      Closed? || now >= resetAt
    }
  }

  /** A request meets either the open bucket or a new one that lasts `window` seconds. */
  function BucketFor(b: Bucket, window: int, now: int): (open: Bucket)
    ensures open.Open?
  {
    if b.Over(now) then Open(0, now + window) else b
  }

  function Ideal(route: Route, b: Bucket, policy: Policy, q: Post): (Bucket, Answer) {
    var now := q.start.Floor;
    var open := BucketFor(b, policy.window, now);
    if route == Login && q.status == 302 then (Closed, Viewed(302))
    else if open.count >= policy.limit then (b, TooMany(Max(open.resetAt - now, 1)))
    else if route == Register || q.status == 200 then (Open(open.count + 1, open.resetAt), Viewed(q.status))
    else (b, Viewed(q.status))
  }

  predicate LegacyAt(s: Slots, at: real) {
    var raw := Peek(s.counter, at);
    raw.Some? && raw.value.Legacy?
  }

  /** The number in the cache under the counter key, if there is one. */
  function NumberAt(s: Slots, at: real): Option<int> {
    var raw := Peek(s.counter, at);
    if raw.Some? && raw.value.Number? then Some(raw.value.n) else None
  }

  /** A window on record is running. */
  predicate Running(s: Slots, at: real) {
    var reset := Peek(s.reset, at);
    reset.Some? && at.Floor < reset.value
  }

  /** The slots at time `at` stand for bucket `b`; buckets that are over are all alike. While a window runs both
      keys live at least to its end; after it, either may linger. */
  ghost predicate Represents(s: Slots, b: Bucket, at: real) {
    if LegacyAt(s, at) then
      var count, end := s.counter.value.value.count, s.counter.value.value.resetAt;
      && Peek(s.reset, at).None? && count >= 0 && end != 0 && s.counter.value.expires >= end as real
      && (if end <= at.Floor then b.Over(at.Floor) else b == Open(count, end))
    else
      var n := NumberAt(s, at);
      && (n.Some? ==> n.value >= 0)
      && (Peek(s.reset, at).Some? ==> s.reset.value.expires >= s.reset.value.value as real)
      && (if Running(s, at)
          then
            && n.Some? && b == Open(n.value, s.reset.value.value)
            && s.counter.value.expires >= s.reset.value.value as real
          else b.Over(at.Floor))
  }

  /** No window on record is running, so the request begins a new one; a dictionary whose window has ended does
      not count here, because loading it clears both keys away. */
  ghost predicate Begins(s: Slots, q: Post) {
    !LegacyAt(s, q.start) && !Running(s, q.start)
  }

  ghost predicate Counted(route: Route, policy: Policy, q: Post) {
    policy.limit > 0 && (route == Register || q.status == 200)
  }

  /** A key of an earlier window is still in the cache when the request writes its own: the reset key, or a
      counter other than a lasting zero. */
  ghost predicate Lingers(s: Slots, end: int, q: Post) {
    || Peek(s.reset, q.added).Some?
    || (NumberAt(s, q.reread).Some?
        && (s.counter.value.value.n != 0 || q.counted < s.counter.value.expires < end as real))
  }

  /** The request is counted into a new window while a key of an earlier one lingers, and that matters: the old
      count refuses a login that should pass, or the new window still runs when the counting is done. */
  ghost predicate Misled(route: Route, s: Slots, policy: Policy, q: Post) {
    var end := q.start.Floor + policy.window;
    && Counted(route, policy, q) && Begins(s, q)
    && (|| (route == Login && NumberAt(s, q.reread).Some? && s.counter.value.value.n >= policy.limit)
        || (q.counted.Floor < end && Lingers(s, end, q)))
  }

  ghost predicate Agrees(route: Route, s: Slots, b: Bucket, policy: Policy, q: Post) {
    var (slots, answer) := Serve(route, s, policy, q);
    var (bucket, ideal) := Ideal(route, b, policy, q);
    answer == ideal && Represents(slots, bucket, q.counted)
  }

  lemma {:induction false} RepresentsLater(s: Slots, b: Bucket, at: real, later: real)
    requires Represents(s, b, at) && at <= later
    ensures Represents(s, b, later)
  {
  }

  lemma {:induction false} LoadsTheBucket(s: Slots, b: Bucket, window: int, q: Post)
    requires Represents(s, b, q.start)
    ensures var load := Load(s, window, q.start.Floor, q.start);
            Open(load.count, load.resetAt) == BucketFor(b, window, q.start.Floor)
            && Represents(load.slots, b, q.start) && load.count >= 0
            && (load.slots == s || load.slots == Slots(None, None))
  {
  }

  /** Counting into a window that is running, or after an expired dictionary was cleared away, cannot go wrong. */
  lemma {:induction false} IncrementContinues(s: Slots, b: Bucket, window: int, q: Post)
    requires Represents(s, b, q.start) && q.Viewed() && !Begins(s, q)
    ensures var now := q.start.Floor;
            var load := Load(s, window, now, q.start);
            var (after, count) := Increment(load.slots, load.resetAt, now, q);
            Represents(after, Open(load.count + 1, load.resetAt), q.counted)
            && (count == load.count + 1 || count == 1)
  {
  }

  /** Counting into a new window: a lingering key is the one thing that can go wrong. */
  lemma {:induction false} IncrementBegins(s: Slots, b: Bucket, window: int, q: Post)
    requires Represents(s, b, q.start) && q.Viewed() && Begins(s, q)
    ensures var now := q.start.Floor;
            var end := now + window;
            var (after, count) := Increment(s, end, now, q);
            && (Represents(after, Open(1, end), q.counted) <==> q.counted.Floor >= end || !Lingers(s, end, q))
            && count == if NumberAt(s, q.reread).Some? then s.counter.value.value.n + 1 else 1
  {
  }

  /** A request that is not counted: a successful login, a refusal, or a login answered neither 302 nor 200. */
  lemma {:induction false} UncountedAgrees(route: Route, s: Slots, b: Bucket, policy: Policy, q: Post)
    requires Represents(s, b, q.start) && q.Viewed()
    requires (route == Login && q.status != 200)
             || BucketFor(b, policy.window, q.start.Floor).count >= policy.limit
    ensures Agrees(route, s, b, policy, q)
  {
    var load := Load(s, policy.window, q.start.Floor, q.start);
    LoadsTheBucket(s, b, policy.window, q);
    RepresentsLater(load.slots, b, q.start, q.counted);
    RepresentsLater(s, b, q.start, q.counted);
  }

  /** A request counted into a running window. */
  lemma {:induction false} ContinuedAgrees(route: Route, s: Slots, b: Bucket, policy: Policy, q: Post)
    requires Represents(s, b, q.start) && q.Viewed() && !Begins(s, q)
    requires (route == Register || q.status == 200) && BucketFor(b, policy.window, q.start.Floor).count < policy.limit
    ensures Agrees(route, s, b, policy, q)
  {
    LoadsTheBucket(s, b, policy.window, q);
    IncrementContinues(s, b, policy.window, q);
  }

  lemma {:induction false} BegunServes(route: Route, s: Slots, b: Bucket, policy: Policy, q: Post)
    requires Represents(s, b, q.start) && Begins(s, q) && Counted(route, policy, q)
    ensures var end := q.start.Floor + policy.window;
            var (after, count) := Increment(s, end, q.start.Floor, q);
            var refused := route == Login && count > policy.limit;
            && Serve(route, s, policy, q)
               == (after, if refused then TooMany(Max(policy.window, 1)) else Viewed(q.status))
            && Ideal(route, b, policy, q) == (Open(1, end), Viewed(q.status))
  {
    LoadsTheBucket(s, b, policy.window, q);
  }

  lemma {:induction false} BegunFitsExactly(route: Route, s: Slots, b: Bucket, policy: Policy, q: Post)
    requires Represents(s, b, q.start) && q.Viewed() && Begins(s, q) && Counted(route, policy, q)
    ensures var end := q.start.Floor + policy.window;
            var (after, count) := Increment(s, end, q.start.Floor, q);
            !(route == Login && count > policy.limit) && Represents(after, Open(1, end), q.counted)
            <==> !Misled(route, s, policy, q)
  {
    IncrementBegins(s, b, policy.window, q);
  }

  /** A request counted into a new window. */
  lemma {:induction false} BegunAgreesExactly(route: Route, s: Slots, b: Bucket, policy: Policy, q: Post)
    requires Represents(s, b, q.start) && q.Viewed() && Begins(s, q)
    requires Counted(route, policy, q)
    ensures Agrees(route, s, b, policy, q) <==> !Misled(route, s, policy, q)
  {
    BegunServes(route, s, b, policy, q);
    BegunFitsExactly(route, s, b, policy, q);
  }

  /** One request serves as the single bucket would, and leaves the two keys standing for the bucket,
      exactly unless a lingering key misleads it. */
  lemma {:induction false} StepAgreesExactly(route: Route, s: Slots, b: Bucket, policy: Policy, q: Post, at: real)
    requires Represents(s, b, at) && q.Timed(at)
    ensures Agrees(route, s, b, policy, q) <==> !Misled(route, s, policy, q)
  {
    RepresentsLater(s, b, at, q.start);
    if BucketFor(b, policy.window, q.start.Floor).count >= policy.limit || (route == Login && q.status != 200) {
      UncountedAgrees(route, s, b, policy, q);
    } else {
      if Begins(s, q) {
        BegunAgreesExactly(route, s, b, policy, q);
      } else {
        ContinuedAgrees(route, s, b, policy, q);
      }
    }
  }

  /** A dictionary without a window end: each request takes its window to begin right then. It refuses what its
      count refuses, for a whole window each time and for as long as it stays in the cache, and the first request
      counted dates it. */
  lemma {:induction false} DatelessDictionary(route: Route, s: Slots, policy: Policy, q: Post)
    requires LegacyAt(s, q.start) && s.counter.value.value.resetAt == 0 && s.counter.value.value.count >= 0
    requires q.Viewed() && policy.window > 0
    ensures var (after, answer) := Serve(route, s, policy, q);
            var count := s.counter.value.value.count;
            if route == Login && q.status == 302 then after == Slots(None, None) && answer == Viewed(302)
            else if count >= policy.limit then after == s && answer == TooMany(policy.window)
            else
              && answer == Viewed(q.status)
              && (route == Login && q.status != 200 ==> after == s)
              && (route == Register || q.status == 200 ==>
                    LegacyAt(s, q.reread) && Peek(s.reset, q.added).None? ==>
                      Represents(after, Open(count + 1, q.start.Floor + policy.window), q.counted))
  {
  }
}
