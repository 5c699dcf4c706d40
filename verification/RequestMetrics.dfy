/** Request metrics kept in shared cache counters by many requests at once; cache.add and cache.incr are
    atomic steps and no key is evicted. */
module RequestMetrics {
  import opened Text

  datatype Key = Requests | Latency | Status(hundreds: int) | Route(bucket: RouteBucket)

  datatype RouteBucket = Dashboard | Contracts | Health | Login | Other

  function BucketOf(path: string): RouteBucket {
    if StartsWith(path, "/dashboard") then Dashboard
    else if StartsWith(path, "/contracts") then Contracts
    else if StartsWith(path, "/_health") then Health
    else if StartsWith(path, "/login") then Login
    else Other
  }

  /** A finished request to be recorded. pc counts its cache operations so far: an add and an incr for each of
      four counters. */
  datatype Call = Call(status: nat, path: string, latency: int, pc: nat)

  datatype System = System(cache: map<Key, int>, calls: seq<Call>)

  function KeyOf(c: Call, k: nat): Key {
    if k == 0 then Requests
    else if k == 1 then Latency
    else if k == 2 then Status(c.status / 100)
    else Route(BucketOf(c.path))
  }

  function Amount(c: Call, k: nat): int {
    if k == 1 then (if c.latency < 0 then 0 else c.latency) else 1
  }

  predicate Done(c: Call) {
    c.pc >= 8
  }

  /** The next cache operation of call i. */
  function Next(s: System, i: nat): (s': System)
    ensures |s'.calls| == |s.calls|
  {
    if i >= |s.calls| || Done(s.calls[i]) then s
    else
      var c := s.calls[i];
      var key := KeyOf(c, c.pc / 2);
      var moved := s.calls[i := c.(pc := c.pc + 1)];
      if c.pc % 2 == 0 then System(if key in s.cache then s.cache else s.cache[key := 0], moved)
      else if key in s.cache then System(s.cache[key := s.cache[key] + Amount(c, c.pc / 2)], moved)
      else s  // the key was evicted, which these runs exclude
  }

  function Run(s: System, schedule: seq<nat>): (now: System)
    ensures |now.calls| == |s.calls|
  {
    if schedule == [] then s else Next(Run(s, schedule[..|schedule| - 1]), schedule[|schedule| - 1])
  }

  function Value(s: System, key: Key): int {
    if key in s.cache then s.cache[key] else 0
  }

  // ---- one call by itself ----

  function Bumped(cache: map<Key, int>, key: Key, amount: int): map<Key, int> {
    cache[key := (if key in cache then cache[key] else 0) + amount]
  }

  /** The cache after the first n counters of a call have been recorded. */
  function Recorded(cache: map<Key, int>, c: Call, n: nat): map<Key, int> {
    if n == 0 then cache else Bumped(Recorded(cache, c, n - 1), KeyOf(c, n - 1), Amount(c, n - 1))
  }

  class Metrics {
    var cache: map<Key, int>

    method CacheIncr(key: Key, amount: int)
      modifies this
      ensures cache == Bumped(old(cache), key, amount)
    {
      if key !in cache { cache := cache[key := 0]; }
      cache := cache[key := cache[key] + amount];
    }

    method RecordRequestMetric(path: string, status: nat, latency: int)
      modifies this
      ensures cache == Recorded(old(cache), Call(status, path, latency, 0), 4)
    {
      ghost var c := Call(status, path, latency, 0);
      CacheIncr(Requests, 1);
      assert cache == Recorded(old(cache), c, 1);
      CacheIncr(Latency, if latency < 0 then 0 else latency);
      assert cache == Recorded(old(cache), c, 2);
      CacheIncr(Status(status / 100), 1);
      assert cache == Recorded(old(cache), c, 3);
      CacheIncr(Route(BucketOf(path)), 1);
    }
  }

  /** n operations of call i with none by anyone else in between. */
  function Alone(s: System, i: nat, n: nat): (now: System)
    ensures |now.calls| == |s.calls|
  {
    if n == 0 then s else Next(Alone(s, i, n - 1), i)
  }

  lemma {:induction false} TwoOperations(s: System, i: nat, k: nat)
    requires i < |s.calls| && k < 4 && s.calls[i].pc == 2 * k
    ensures var c := s.calls[i];
            var after := Next(Next(s, i), i);
            after.cache == Bumped(s.cache, KeyOf(c, k), Amount(c, k)) && after.calls[i] == c.(pc := 2 * k + 2)
  {
    var middle := Next(s, i);
    assert middle.calls[i] == s.calls[i].(pc := 2 * k + 1);
    assert (2 * k + 1) / 2 == k && (2 * k + 1) % 2 == 1;
  }

  /** Undisturbed, the eight cache operations of a call amount to recording it. */
  lemma {:induction false} LoneCallRecords(s: System, i: nat, n: nat)
    requires i < |s.calls| && s.calls[i].pc == 0 && n <= 4
    ensures Alone(s, i, 2 * n).cache == Recorded(s.cache, s.calls[i], n)
    ensures Alone(s, i, 2 * n).calls[i] == s.calls[i].(pc := 2 * n)
  {
    if n == 0 {
    } else {
      LoneCallRecords(s, i, n - 1);
      var before := Alone(s, i, 2 * (n - 1));
      assert Alone(s, i, 2 * n - 1) == Next(before, i);
      assert Alone(s, i, 2 * n) == Next(Next(before, i), i);
      TwoOperations(before, i, n - 1);
    }
  }

  // ---- every counter is the sum of what the calls have contributed so far ----

  function Contribution(c: Call, key: Key): int {
    (if c.pc >= 2 && key == Requests then 1 else 0)
    + (if c.pc >= 4 && key == Latency then Amount(c, 1) else 0)
    + (if c.pc >= 6 && key == Status(c.status / 100) then 1 else 0)
    + (if c.pc >= 8 && key == Route(BucketOf(c.path)) then 1 else 0)
  }

  ghost function Sum(cs: seq<Call>, f: Call -> int): int {
    if cs == [] then 0 else f(cs[0]) + Sum(cs[1..], f)
  }

  lemma {:induction false} SumUpdate(cs: seq<Call>, f: Call -> int, i: nat, c: Call)
    requires i < |cs|
    ensures Sum(cs[i := c], f) == Sum(cs, f) - f(cs[i]) + f(c)
  {
    if i == 0 {
      assert cs[i := c][1..] == cs[1..];
    } else {
      assert cs[i := c][1..] == cs[1..][i - 1 := c];
      SumUpdate(cs[1..], f, i - 1, c);
    }
  }

  lemma {:induction false} SumBounds(cs: seq<Call>, f: Call -> int, g: Call -> int, h: Call -> int)
    requires forall i :: 0 <= i < |cs| ==> f(cs[i]) + g(cs[i]) <= h(cs[i])
    ensures Sum(cs, f) + Sum(cs, g) <= Sum(cs, h)
  {
    if cs == [] {
    } else {
      SumBounds(cs[1..], f, g, h);
    }
  }

  ghost function Of(key: Key): Call -> int {
    c => Contribution(c, key)
  }

  /** Nothing has been recorded and every call is about to start. */
  ghost predicate Initial(s: System) {
    s.cache == map[] && forall i :: 0 <= i < |s.calls| ==> s.calls[i].pc == 0
  }

  ghost predicate Inv(s: System) {
    && (forall i :: 0 <= i < |s.calls| ==> s.calls[i].pc <= 8)
    && (forall i :: 0 <= i < |s.calls| && s.calls[i].pc % 2 == 1 ==> KeyOf(s.calls[i], s.calls[i].pc / 2) in s.cache)
    && (forall key :: Value(s, key) == Sum(s.calls, Of(key)))
  }

  lemma {:induction false} OneOperation(c: Call, key: Key)
    requires c.pc < 8
    ensures Contribution(c.(pc := c.pc + 1), key)
            == Contribution(c, key) + (if c.pc % 2 == 1 && key == KeyOf(c, c.pc / 2) then Amount(c, c.pc / 2) else 0)
  {
  }

  lemma {:induction false} StepKeepsInv(s: System, i: nat)
    requires Inv(s)
    ensures Inv(Next(s, i))
  {
    if i < |s.calls| && !Done(s.calls[i]) {
      var c := s.calls[i];
      forall key ensures Value(Next(s, i), key) == Sum(Next(s, i).calls, Of(key)) {
        SumUpdate(s.calls, Of(key), i, c.(pc := c.pc + 1));
        OneOperation(c, key);
        assert Value(s, key) == Sum(s.calls, Of(key));
      }
    }
  }

  lemma {:induction false} EmptySum(cs: seq<Call>, key: Key)
    requires forall i :: 0 <= i < |cs| ==> cs[i].pc == 0
    ensures Sum(cs, Of(key)) == 0
  {
    if cs == [] {
    } else {
      EmptySum(cs[1..], key);
    }
  }

  /** In every interleaving each counter is exactly the sum of the finished increments. */
  lemma {:induction false} CountersAreExact(s: System, schedule: seq<nat>)
    requires Initial(s)
    ensures Inv(Run(s, schedule))
  {
    if schedule == [] {
      forall key ensures Value(s, key) == Sum(s.calls, Of(key)) { EmptySum(s.calls, key); }
    } else {
      CountersAreExact(s, schedule[..|schedule| - 1]);
      StepKeepsInv(Run(s, schedule[..|schedule| - 1]), schedule[|schedule| - 1]);
    }
  }

  // ---- the totals ----

  /** The status classes a valid HTTP status can fall into. */
  const CLASSES: seq<Key> := [Status(1), Status(2), Status(3), Status(4), Status(5)]
  /** The ones the snapshot reports. */
  const REPORTED: seq<Key> := [Status(2), Status(3), Status(4), Status(5)]
  const ROUTES: seq<Key> := [Route(Dashboard), Route(Contracts), Route(Health), Route(Login), Route(Other)]

  function Total(s: System, keys: seq<Key>): int {
    if keys == [] then 0 else Value(s, keys[0]) + Total(s, keys[1..])
  }

  ghost function TotalOf(keys: seq<Key>): Call -> int {
    c => (ContributionTo(c, keys))
  }

  function ContributionTo(c: Call, keys: seq<Key>): int {
    if keys == [] then 0 else Contribution(c, keys[0]) + ContributionTo(c, keys[1..])
  }

  lemma {:induction false} SumSplits(cs: seq<Call>, keys: seq<Key>)
    requires keys != []
    ensures Sum(cs, TotalOf(keys)) == Sum(cs, Of(keys[0])) + Sum(cs, TotalOf(keys[1..]))
  {
    if cs == [] {
    } else {
      SumSplits(cs[1..], keys);
    }
  }

  lemma {:induction false} TotalIsSum(s: System, keys: seq<Key>)
    requires Inv(s)
    ensures Total(s, keys) == Sum(s.calls, TotalOf(keys))
  {
    if keys == [] {
      ZeroSum(s.calls, TotalOf(keys));
    } else {
      TotalIsSum(s, keys[1..]);
      SumSplits(s.calls, keys);
      assert Value(s, keys[0]) == Sum(s.calls, Of(keys[0]));
    }
  }

  lemma {:induction false} ZeroSum(cs: seq<Call>, f: Call -> int)
    requires forall i :: 0 <= i < |cs| ==> f(cs[i]) == 0
    ensures Sum(cs, f) == 0
  {
    if cs == [] {
    } else {
      ZeroSum(cs[1..], f);
    }
  }

  /** Over distinct bucket keys a call counts once for its status class and once for its route. */
  lemma {:induction false} ContributionToBuckets(c: Call, keys: seq<Key>)
    requires forall i :: 0 <= i < |keys| ==> keys[i].Status? || keys[i].Route?
    requires forall i, j :: 0 <= i < j < |keys| ==> keys[i] != keys[j]
    ensures ContributionTo(c, keys) == (if c.pc >= 6 && Status(c.status / 100) in keys then 1 else 0)
                                       + (if c.pc >= 8 && Route(BucketOf(c.path)) in keys then 1 else 0)
  {
    if keys == [] {
    } else {
      ContributionToBuckets(c, keys[1..]);
    }
  }

  lemma {:induction false} OneClass(c: Call)
    requires 100 <= c.status < 600
    ensures ContributionTo(c, CLASSES) == if c.pc >= 6 then 1 else 0
  {
    ContributionToBuckets(c, CLASSES);
    assert 1 <= c.status / 100 <= 5 && CLASSES[c.status / 100 - 1] == Status(c.status / 100);
  }

  lemma {:induction false} OneRoute(c: Call)
    ensures ContributionTo(c, ROUTES) == if c.pc >= 8 then 1 else 0
  {
    ContributionToBuckets(c, ROUTES);
    var i := match BucketOf(c.path)
             case Dashboard => 0 case Contracts => 1 case Health => 2 case Login => 3 case Other => 4;
    assert ROUTES[i] == Route(BucketOf(c.path));
  }

  const UNDER_WAY := (c: Call) => if 1 <= c.pc < 8 then 1 else 0

  ghost function InFlight(cs: seq<Call>): int {
    Sum(cs, UNDER_WAY)
  }

  /** In every reachable state the route total trails the status total, which trails the request count,
      and the whole gap is at most the number of calls under way. */
  lemma {:induction false} TotalsTrail(s: System, schedule: seq<nat>)
    requires Initial(s) && forall i :: 0 <= i < |s.calls| ==> 100 <= s.calls[i].status < 600
    ensures var now := Run(s, schedule);
            Total(now, ROUTES) <= Total(now, CLASSES) <= Value(now, Requests)
            && Value(now, Requests) <= Total(now, ROUTES) + InFlight(now.calls)
  {
    CountersAreExact(s, schedule);
    CallsFixed(s, schedule);
    var now := Run(s, schedule);
    TotalIsSum(now, ROUTES);
    TotalIsSum(now, CLASSES);
    assert Value(now, Requests) == Sum(now.calls, Of(Requests));
    forall i | 0 <= i < |now.calls|
      ensures ContributionTo(now.calls[i], CLASSES) == if now.calls[i].pc >= 6 then 1 else 0
      ensures ContributionTo(now.calls[i], ROUTES) == if now.calls[i].pc >= 8 then 1 else 0
    {
      OneClass(now.calls[i]);
      OneRoute(now.calls[i]);
    }
    var none := (c: Call) => 0;
    ZeroSum(now.calls, none);
    SumBounds(now.calls, TotalOf(ROUTES), none, TotalOf(CLASSES));
    SumBounds(now.calls, TotalOf(CLASSES), none, Of(Requests));
    SumAtMost(now.calls, Of(Requests), TotalOf(ROUTES), UNDER_WAY);
  }

  lemma {:induction false} SumAtMost(cs: seq<Call>, f: Call -> int, g: Call -> int, h: Call -> int)
    requires forall i :: 0 <= i < |cs| ==> f(cs[i]) <= g(cs[i]) + h(cs[i])
    ensures Sum(cs, f) <= Sum(cs, g) + Sum(cs, h)
  {
    if cs == [] {
    } else {
      SumAtMost(cs[1..], f, g, h);
    }
  }

  lemma {:induction false} CallsFixed(s: System, schedule: seq<nat>)
    ensures forall i :: 0 <= i < |s.calls| ==>
        Run(s, schedule).calls[i] == s.calls[i].(pc := Run(s, schedule).calls[i].pc)
  {
    if schedule == [] {
    } else {
      CallsFixed(s, schedule[..|schedule| - 1]);
    }
  }

  const RECORDED := (c: Call) => Amount(c, 1)

  /** When all calls have finished, the three totals equal the number of calls and the latency sum is the sum of
      the recorded values. */
  lemma {:induction false} FinishedTotals(s: System, schedule: seq<nat>)
    requires Initial(s) && forall i :: 0 <= i < |s.calls| ==> 100 <= s.calls[i].status < 600
    requires forall i :: 0 <= i < |s.calls| ==> Done(Run(s, schedule).calls[i])
    ensures var now := Run(s, schedule);
            Total(now, ROUTES) == Total(now, CLASSES) == Value(now, Requests) == |s.calls|
            && Value(now, Latency) == Sum(s.calls, RECORDED)
  {
    TotalsTrail(s, schedule);
    CountersAreExact(s, schedule);
    CallsFixed(s, schedule);
    var now := Run(s, schedule);
    ZeroSum(now.calls, UNDER_WAY);
    assert Value(now, Requests) == Sum(now.calls, Of(Requests));
    assert Value(now, Latency) == Sum(now.calls, Of(Latency));
    OneEach(now.calls, Of(Requests));
    SameSums(now.calls, Of(Latency), s.calls, RECORDED);
  }

  /** What a request adds to a counter: one to the requests, its latency if positive, one to its status class and
      one to the route that its path begins with. */
  function Share(c: Call, key: Key): int {
    match key
    case Requests => 1
    case Latency => if c.latency > 0 then c.latency else 0
    case Status(hundreds) => if 100 * hundreds <= c.status < 100 * hundreds + 100 then 1 else 0
    case Route(bucket) => if Begins(c.path, bucket) then 1 else 0
  }

  /** When all calls have finished, every single counter is the sum of the requests' shares. */
  lemma {:induction false} FinishedCounters(s: System, schedule: seq<nat>, key: Key)
    requires Initial(s) && forall i :: 0 <= i < |s.calls| ==> Done(Run(s, schedule).calls[i])
    ensures Value(Run(s, schedule), key) == Sum(s.calls, c => Share(c, key))
  {
    var share := c => Share(c, key);
    var now := Run(s, schedule);
    CountersAreExact(s, schedule);
    CallsFixed(s, schedule);
    forall i | 0 <= i < |s.calls| ensures Of(key)(now.calls[i]) == share(s.calls[i]) { SharesAre(now.calls[i], key); }
    SameSums(now.calls, Of(key), s.calls, share);
  }

  lemma {:induction false} SharesAre(c: Call, key: Key)
    requires c.pc >= 8
    ensures Contribution(c, key) == Share(c, key)
  {
    RouteExactly(c.path);
  }

  /** At most one of the four prefixes fits a path. */
  lemma {:induction false} RouteExactly(path: string)
    ensures forall bucket :: BucketOf(path) == bucket <==> Begins(path, bucket)
  {
    assert "/dashboard"[1] != "/contracts"[1] && "/dashboard"[1] != "/_health"[1] && "/dashboard"[1] != "/login"[1];
    assert "/contracts"[1] != "/_health"[1] && "/contracts"[1] != "/login"[1] && "/_health"[1] != "/login"[1];
  }

  predicate Begins(path: string, bucket: RouteBucket) {
    match bucket
    case Dashboard => "/dashboard" <= path
    case Contracts => "/contracts" <= path
    case Health => "/_health" <= path
    case Login => "/login" <= path
    case Other => !("/dashboard" <= path) && !("/contracts" <= path) && !("/_health" <= path) && !("/login" <= path)
  }

  // ---- a snapshot taken while calls are running ----

  lemma {:induction false} CountersOnlyGrow(s: System, schedule: seq<nat>, m: nat, n: nat, key: Key)
    requires m <= n <= |schedule|
    ensures Value(Run(s, schedule[..m]), key) <= Value(Run(s, schedule[..n]), key)
    decreases n
  {
    if m == n {
    } else {
      CountersOnlyGrow(s, schedule, m, n - 1, key);
      assert schedule[..n][..n - 1] == schedule[..n - 1];
      assert Run(s, schedule[..n]) == Next(Run(s, schedule[..n - 1]), schedule[n - 1]);
    }
  }

  /** The sum of the keys as a snapshot reads them one by one, key i after times[i] operations of the calls. */
  function ReadTotal(s: System, schedule: seq<nat>, keys: seq<Key>, times: seq<nat>): int
    requires |keys| == |times| && forall i :: 0 <= i < |times| ==> times[i] <= |schedule|
  {
    if keys == [] then 0
    else Value(Run(s, schedule[..times[0]]), keys[0]) + ReadTotal(s, schedule, keys[1..], times[1..])
  }

  lemma {:induction false} ReadTotalBetween(s: System, schedule: seq<nat>, keys: seq<Key>, times: seq<nat>,
                                            from: nat, to: nat)
    requires |keys| == |times| && from <= to <= |schedule| && forall i :: 0 <= i < |times| ==> from <= times[i] <= to
    ensures Total(Run(s, schedule[..from]), keys) <= ReadTotal(s, schedule, keys, times)
            <= Total(Run(s, schedule[..to]), keys)
  {
    if keys == [] {
    } else {
      CountersOnlyGrow(s, schedule, from, times[0], keys[0]);
      CountersOnlyGrow(s, schedule, times[0], to, keys[0]);
      ReadTotalBetween(s, schedule, keys[1..], times[1..], from, to);
    }
  }

  lemma {:induction false} ReportedTotal(s: System, schedule: seq<nat>)
    requires Initial(s) && forall i :: 0 <= i < |s.calls| ==> 200 <= s.calls[i].status < 600
    ensures Total(Run(s, schedule), REPORTED) == Total(Run(s, schedule), CLASSES)
  {
    CountersAreExact(s, schedule);
    CallsFixed(s, schedule);
    var now := Run(s, schedule);
    TotalIsSum(now, REPORTED);
    TotalIsSum(now, CLASSES);
    forall i | 0 <= i < |now.calls|
      ensures ContributionTo(now.calls[i], REPORTED) == ContributionTo(now.calls[i], CLASSES)
    {
      var c := now.calls[i];
      ContributionToBuckets(c, REPORTED);
      OneClass(c);
      assert REPORTED[c.status / 100 - 2] == Status(c.status / 100);
    }
    SameSums(now.calls, TotalOf(REPORTED), now.calls, TotalOf(CLASSES));
  }

  /** The snapshot reads the request count first, after `from` operations of the calls, and the buckets later, up
      to operation `to`. What it adds up over the routes or the reported classes falls short of the count it read
      by at most the calls under way at that moment, and exceeds it by at most the calls that began before the
      last key was read. */
  lemma {:induction false} SnapshotTotals(s: System, schedule: seq<nat>, from: nat, to: nat,
                                          keys: seq<Key>, times: seq<nat>)
    requires Initial(s) && forall i :: 0 <= i < |s.calls| ==> 200 <= s.calls[i].status < 600
    requires keys == REPORTED || keys == ROUTES
    requires |keys| == |times| && from <= to <= |schedule| && forall i :: 0 <= i < |times| ==> from <= times[i] <= to
    ensures var first, last := Run(s, schedule[..from]), Run(s, schedule[..to]);
            var read := ReadTotal(s, schedule, keys, times);
            Value(first, Requests) - InFlight(first.calls) <= read <= Value(last, Requests)
  {
    ReadTotalBetween(s, schedule, keys, times, from, to);
    TotalsTrail(s, schedule[..from]);
    TotalsTrail(s, schedule[..to]);
    ReportedTotal(s, schedule[..from]);
    ReportedTotal(s, schedule[..to]);
  }

  /** The status counts of the snapshot add up to its request count exactly if every status was in 200..599:
      an informational answer is counted but not reported. */
  lemma {:induction false} ReportedStatusesAddUpExactly(s: System, schedule: seq<nat>)
    requires Initial(s) && forall i :: 0 <= i < |s.calls| ==> Done(Run(s, schedule).calls[i])
    ensures Total(Run(s, schedule), REPORTED) <= Value(Run(s, schedule), Requests)
    ensures Total(Run(s, schedule), REPORTED) == Value(Run(s, schedule), Requests)
            <==> forall i :: 0 <= i < |s.calls| ==> 200 <= s.calls[i].status < 600
  {
    CountersAreExact(s, schedule);
    CallsFixed(s, schedule);
    var now := Run(s, schedule);
    TotalIsSum(now, REPORTED);
    assert Value(now, Requests) == Sum(now.calls, Of(Requests));
    OneEach(now.calls, Of(Requests));
    forall i | 0 <= i < |now.calls|
      ensures TotalOf(REPORTED)(now.calls[i]) == if 200 <= now.calls[i].status < 600 then 1 else 0
    {
      IsReported(now.calls[i]);
    }
    SumOfFlags(now.calls, TotalOf(REPORTED));
    assert forall i :: 0 <= i < |s.calls| ==> now.calls[i].status == s.calls[i].status;
    assert (forall i :: 0 <= i < |now.calls| ==> TotalOf(REPORTED)(now.calls[i]) == 1)
      <==> forall i :: 0 <= i < |s.calls| ==> 200 <= s.calls[i].status < 600;
  }

  lemma {:induction false} IsReported(c: Call)
    requires Done(c)
    ensures ContributionTo(c, REPORTED) == if 200 <= c.status < 600 then 1 else 0
  {
    ContributionToBuckets(c, REPORTED);
    if 200 <= c.status < 600 { assert REPORTED[c.status / 100 - 2] == Status(c.status / 100); }
  }

  lemma {:induction false} SumOfFlags(cs: seq<Call>, f: Call -> int)
    requires forall i :: 0 <= i < |cs| ==> 0 <= f(cs[i]) <= 1
    ensures 0 <= Sum(cs, f) <= |cs|
    ensures Sum(cs, f) == |cs| <==> forall i :: 0 <= i < |cs| ==> f(cs[i]) == 1
  {
    if cs == [] {
    } else {
      SumOfFlags(cs[1..], f);
      assert forall i :: 0 < i < |cs| ==> cs[i] == cs[1..][i - 1];
    }
  }

  lemma {:induction false} OneEach(cs: seq<Call>, f: Call -> int)
    requires forall i :: 0 <= i < |cs| ==> f(cs[i]) == 1
    ensures Sum(cs, f) == |cs|
  {
    if cs == [] {
    } else {
      OneEach(cs[1..], f);
    }
  }

  lemma {:induction false} SameSums(cs: seq<Call>, f: Call -> int, ds: seq<Call>, g: Call -> int)
    requires |cs| == |ds| && forall i :: 0 <= i < |cs| ==> f(cs[i]) == g(ds[i])
    ensures Sum(cs, f) == Sum(ds, g)
  {
    if cs == [] {
    } else {
      SameSums(cs[1..], f, ds[1..], g);
    }
  }
}
