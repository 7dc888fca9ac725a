/** The in-memory token bucket of the API's rate limiter. Times are milliseconds. */
module RateLimit {
  import opened Common

  const UNAUTHENTICATED_CAPACITY: nat := 100
  const AUTHENTICATED_CAPACITY: nat := 1000
  const REFILL_RATE: nat := 1
  const REFILL_INTERVAL: nat := 1000

  datatype Bucket = Bucket(tokens: int, lastRefill: int)

  datatype User = User(wallet: Option<string>)
  datatype Request = Request(isPublic: bool, user: Option<User>, ip: Option<string>)

  /** Allowed with the remaining tokens, or refused with status 429; in a test environment
      requests are not counted. */
  datatype Verdict = Allowed(remaining: int, limit: nat) | TooManyRequests | NotLimited

  function CapacityFor(r: Request): nat {
    if r.isPublic || r.user.None? then UNAUTHENTICATED_CAPACITY else AUTHENTICATED_CAPACITY
  }

  function KeyFor(r: Request): string {
    if r.user.Some? && r.user.value.wallet.Some? then r.user.value.wallet.value
    else if r.ip.Some? then r.ip.value
    else "unknown"
  }

  /** The bucket once created or refilled for a request, before a token is taken. */
  function Refilled(b: Option<Bucket>, capacity: nat, now: int): Bucket {
    match b
    case None => Bucket(capacity, now)
    case Some(b) =>
      var refill := (now - b.lastRefill) / REFILL_INTERVAL * REFILL_RATE;
      if refill > 0 then Bucket(Min(capacity, b.tokens + refill), now) else b
  }

  function Taken(b: Bucket): Bucket {
    if b.tokens <= 0 then b else b.(tokens := b.tokens - 1)
  }

  /** The answer to a request, given the bucket of its key. */
  function Answer(b: Option<Bucket>, capacity: nat, now: int): Verdict {
    var bucket := Refilled(b, capacity, now);
    if bucket.tokens > 0 then Allowed(bucket.tokens - 1, capacity) else TooManyRequests
  }

  class RateLimitGuard {
    var buckets: map<string, Bucket>

    function At(key: string): Option<Bucket>
      reads this
    {
      if key in buckets then Some(buckets[key]) else None
    }

    constructor ()
      ensures buckets == map[]
    {
      buckets := map[];
    }

    method CanActivate(testing: bool, request: Request, now: int) returns (verdict: Verdict)
      modifies this
      ensures testing ==> verdict == NotLimited && buckets == old(buckets)
      ensures !testing ==>
                var key, limit := KeyFor(request), CapacityFor(request);
                && buckets == old(buckets)[key := Taken(Refilled(old(At(key)), limit, now))]
                && verdict == Answer(old(At(key)), limit, now)
    {
      if testing {
        return NotLimited;
      }
      var capacity :=
        if request.isPublic || request.user.None? then UNAUTHENTICATED_CAPACITY else AUTHENTICATED_CAPACITY;
      var key := KeyFor(request);
      if key !in buckets {
        buckets := buckets[key := Bucket(capacity, now)];
      }
      var bucket := buckets[key];
      var elapsed := now - bucket.lastRefill;
      var refill := elapsed / REFILL_INTERVAL * REFILL_RATE;
      if refill > 0 {
        bucket := Bucket(Min(capacity, bucket.tokens + refill), now);
        buckets := buckets[key := bucket];
      }
      if bucket.tokens <= 0 {
        return TooManyRequests;
      }
      bucket := bucket.(tokens := bucket.tokens - 1);
      buckets := buckets[key := bucket];
      return Allowed(bucket.tokens, capacity);
    }
  }

  // ---------- The history of one key ----------

  datatype Hit = Hit(capacity: nat, now: int)

  function After(b: Option<Bucket>, hits: seq<Hit>): Option<Bucket> {
    if hits == [] then b
    else
      var last := hits[|hits| - 1];
      Some(Taken(Refilled(After(b, hits[..|hits| - 1]), last.capacity, last.now)))
  }

  /** Whether hit `i` is admitted when the hits arrive in order. */
  predicate IsAdmitted(b: Option<Bucket>, hits: seq<Hit>, i: nat)
    requires i < |hits|
  {
    Refilled(After(b, hits[..i]), hits[i].capacity, hits[i].now).tokens > 0
  }

  function Admitted(b: Option<Bucket>, hits: seq<Hit>): nat {
    if hits == [] then 0
    else
      var n := |hits| - 1;
      Admitted(b, hits[..n]) + (if IsAdmitted(b, hits, n) then 1 else 0)
  }

  predicate ClockForward(hits: seq<Hit>) {
    forall i, j | 0 <= i < j < |hits| :: hits[i].now <= hits[j].now
  }

  predicate CapacitiesWithin(hits: seq<Hit>, largest: nat) {
    forall i | 0 <= i < |hits| :: 1 <= hits[i].capacity <= largest
  }

  /** The bucket of a key that has seen requests up to time `now`. */
  predicate Sound(b: Option<Bucket>, largest: nat, now: int) {
    b.Some? ==> 0 <= b.value.tokens <= largest && b.value.lastRefill <= now
  }

  /** Tokens stay within 0 and the largest capacity, and the refill time never runs ahead. */
  lemma {:induction false} TokensInRange(b: Option<Bucket>, hits: seq<Hit>, largest: nat, start: int)
    requires Sound(b, largest, start) && CapacitiesWithin(hits, largest) && ClockForward(hits)
    requires hits != [] ==> start <= hits[0].now
    ensures Sound(After(b, hits), largest, if hits == [] then start else hits[|hits| - 1].now)
    decreases |hits|
  {
    if hits != [] {
      TokensInRange(b, hits[..|hits| - 1], largest, start);
    }
  }

  function CeilDiv(a: int, b: int): int
    requires b > 0
  {
    (a + b - 1) / b
  }

  /** What the hits of a window have used, plus what is left, is paid for by the capacity
      and by the refills since the first hit of the window. */
  lemma {:induction false} UseIsPaidFor(b: Option<Bucket>, window: seq<Hit>, largest: nat) returns (since: int)
    requires window != [] && Sound(b, largest, window[0].now)
    requires CapacitiesWithin(window, largest) && ClockForward(window)
    ensures After(b, window).Some?
    ensures since > window[0].now - REFILL_INTERVAL
    ensures var end := After(b, window).value;
            REFILL_INTERVAL * (Admitted(b, window) + end.tokens - largest) <= end.lastRefill - since
    decreases |window|
  {
    var n := |window| - 1;
    TokensInRange(b, window[..n], largest, window[0].now);
    if n == 0 {
      assert window[..0] == [];
      since := After(b, window).value.lastRefill;
    } else {
      since := UseIsPaidFor(b, window[..n], largest);
    }
  }

  /** In any window of consecutive requests of one key, after any history of that key, the
      limiter admits at most the largest capacity plus one request for every second the
      window lasts, rounded up. */
  lemma WindowBound(history: seq<Hit>, window: seq<Hit>, largest: nat)
    requires window != [] && CapacitiesWithin(history + window, largest) && ClockForward(history + window)
    ensures Admitted(After(None, history), window)
            <= largest + CeilDiv(window[|window| - 1].now - window[0].now, 1000)
  {
    var all := history + window;
    assert forall i | 0 <= i < |history| :: all[i] == history[i];
    assert forall i | 0 <= i < |window| :: all[|history| + i] == window[i];
    var b := After(None, history);
    if history != [] {
      TokensInRange(None, history, largest, history[0].now);
    }
    assert Sound(b, largest, window[0].now);
    var since := UseIsPaidFor(b, window, largest);
    TokensInRange(b, window, largest, window[0].now);
  }

  /** A hit at least a second after the previous one of its key is never refused, whatever
      came before, bursts included; nor is the first hit of a new key. */
  lemma SpacedHitIsAdmitted(b: Option<Bucket>, hits: seq<Hit>, largest: nat, start: int, i: nat)
    requires i < |hits| && CapacitiesWithin(hits, largest) && ClockForward(hits)
    requires Sound(b, largest, start) && start <= hits[0].now
    requires if i == 0 then b.None? else hits[i].now >= hits[i - 1].now + 1000
    ensures IsAdmitted(b, hits, i)
  {
    if i > 0 {
      TokensInRange(b, hits[..i], largest, start);
    }
  }

  // ---------- What a client is entitled to ----------

  /** A bucket that holds at least `n` tokens for the first of up to `n` hits serves them all,
      and keeps what is left. */
  lemma {:induction false} BurstIsAdmitted(b: Option<Bucket>, hits: seq<Hit>, n: nat)
    requires hits != [] ==> Refilled(b, hits[0].capacity, hits[0].now).tokens >= n
    requires |hits| <= n && forall i | 0 <= i < |hits| :: n <= hits[i].capacity
    ensures Admitted(b, hits) == |hits|
    ensures hits != [] ==> After(b, hits).Some? && After(b, hits).value.tokens >= n - |hits|
    decreases |hits|
  {
    if hits != [] {
      var front := hits[..|hits| - 1];
      BurstIsAdmitted(b, front, n);
      assert front != [] ==> front[0] == hits[0];
    }
  }

  /** After a pause of a second for each of `n` tokens, a key can send `n` requests at once. */
  lemma BurstAfterPause(history: seq<Hit>, burst: seq<Hit>, largest: nat)
    requires ClockForward(history) && CapacitiesWithin(history, largest)
    requires forall i | 0 <= i < |burst| :: |burst| <= burst[i].capacity
    requires forall i, j | 0 <= i < |history| && 0 <= j < |burst| :: history[i].now + 1000 * |burst| <= burst[j].now
    ensures Admitted(After(None, history), burst) == |burst|
  {
    if history != [] {
      TokensInRange(None, history, largest, history[0].now);
    }
    BurstIsAdmitted(After(None, history), burst, |burst|);
  }

  /** A key is never refused for a whole second: of the hits after one, up to the first that
      comes a second or more later, at least one is admitted. */
  lemma SomeHitIsAdmitted(hits: seq<Hit>, largest: nat, i: nat, j: nat)
    requires i < j < |hits| && CapacitiesWithin(hits, largest) && ClockForward(hits)
    requires hits[i].now + 1000 <= hits[j].now
    ensures exists k | i < k <= j :: IsAdmitted(None, hits, k)
  {
    if forall k | i < k < j :: !IsAdmitted(None, hits, k) {
      TokensInRange(None, hits[..i + 1], largest, hits[0].now);
      RefusalsKeepTheClock(hits, i, j, largest);
      assert IsAdmitted(None, hits, j);
    }
  }

  /** Refused hits do not restart the refill. */
  lemma {:induction false} RefusalsKeepTheClock(hits: seq<Hit>, i: nat, j: nat, largest: nat)
    requires i < j < |hits| && CapacitiesWithin(hits, largest) && ClockForward(hits)
    requires forall k | i < k < j :: !IsAdmitted(None, hits, k)
    ensures After(None, hits[..j]).Some? && After(None, hits[..j]).value.lastRefill <= hits[i].now
    ensures After(None, hits[..j]).value.tokens >= 0
    decreases j
  {
    TokensInRange(None, hits[..j], largest, hits[0].now);
    if i + 1 < j {
      RefusalsKeepTheClock(hits, i, j - 1, largest);
      TokensInRange(None, hits[..j - 1], largest, hits[0].now);
      assert !IsAdmitted(None, hits, j - 1);
      assert hits[..j][..j - 1] == hits[..j - 1];
    }
  }

  /** A refill restarts the clock: after a hit that was admitted within a second of a refused
      one, the key is refused for a second. */
  lemma RefillRestartsTheClock(hits: seq<Hit>, largest: nat, i: nat, j: nat)
    requires 0 < i < j < |hits| && CapacitiesWithin(hits, largest) && ClockForward(hits)
    requires !IsAdmitted(None, hits, i - 1) && IsAdmitted(None, hits, i) && hits[i].now < hits[i - 1].now + 1000
    requires hits[j].now < hits[i].now + 1000
    ensures !IsAdmitted(None, hits, j)
  {
    EmptyAfterRefill(hits, largest, i);
    StaysEmpty(hits, i, j);
  }

  lemma EmptyAfterRefill(hits: seq<Hit>, largest: nat, i: nat)
    requires 0 < i < |hits| && CapacitiesWithin(hits, largest) && ClockForward(hits)
    requires !IsAdmitted(None, hits, i - 1) && IsAdmitted(None, hits, i) && hits[i].now < hits[i - 1].now + 1000
    ensures After(None, hits[..i + 1]) == Some(Bucket(0, hits[i].now))
  {
    TokensInRange(None, hits[..i - 1], largest, hits[0].now);
    TokensInRange(None, hits[..i], largest, hits[0].now);
    assert hits[..i][..i - 1] == hits[..i - 1] && hits[..i + 1][..i] == hits[..i];
  }

  lemma {:induction false} StaysEmpty(hits: seq<Hit>, i: nat, j: nat)
    requires i < j < |hits| && ClockForward(hits) && hits[j].now < hits[i].now + 1000
    requires After(None, hits[..i + 1]) == Some(Bucket(0, hits[i].now))
    ensures After(None, hits[..j]) == Some(Bucket(0, hits[i].now)) && !IsAdmitted(None, hits, j)
    decreases j
  {
    if i + 1 < j {
      assert hits[j - 1].now <= hits[j].now;
      StaysEmpty(hits, i, j - 1);
      assert hits[..j][..j - 1] == hits[..j - 1];
    }
  }

  /** The first second of a key, exactly: it counts down from the capacity to 0. */
  lemma {:induction false} FirstSecond(hits: seq<Hit>, capacity: nat)
    requires forall i | 0 <= i < |hits| :: hits[i].capacity == capacity
               && hits[0].now <= hits[i].now < hits[0].now + 1000
    ensures hits != [] ==>
              After(None, hits) == Some(Bucket(if |hits| <= capacity then capacity - |hits| else 0, hits[0].now))
    decreases |hits|
  {
    if hits != [] {
      var front := hits[..|hits| - 1];
      assert front != [] ==> front[0] == hits[0];
      FirstSecond(front, capacity);
    }
  }

  // ---------- Keys do not interfere ----------

  datatype Arrival = Arrival(request: Request, now: int)

  function Lookup(m: map<string, Bucket>, key: string): Option<Bucket> {
    if key in m then Some(m[key]) else None
  }

  /** All buckets after the arrivals: each is one `CanActivate`. */
  function Buckets(before: map<string, Bucket>, arrivals: seq<Arrival>): map<string, Bucket> {
    if arrivals == [] then before
    else
      var last := arrivals[|arrivals| - 1];
      var m := Buckets(before, arrivals[..|arrivals| - 1]);
      var key := KeyFor(last.request);
      m[key := Taken(Refilled(Lookup(m, key), CapacityFor(last.request), last.now))]
  }

  /** How many of the arrivals with this key the guard admits. */
  function AdmittedOf(before: map<string, Bucket>, arrivals: seq<Arrival>, key: string): nat {
    if arrivals == [] then 0
    else
      var front, last := arrivals[..|arrivals| - 1], arrivals[|arrivals| - 1];
      AdmittedOf(before, front, key)
      + (if KeyFor(last.request) == key
            && Refilled(Lookup(Buckets(before, front), key), CapacityFor(last.request), last.now).tokens > 0
         then 1 else 0)
  }

  /** The hits of one key among all arrivals. */
  function HitsOf(arrivals: seq<Arrival>, key: string): seq<Hit> {
    if arrivals == [] then []
    else
      var last := arrivals[|arrivals| - 1];
      HitsOf(arrivals[..|arrivals| - 1], key)
      + (if KeyFor(last.request) == key then [Hit(CapacityFor(last.request), last.now)] else [])
  }

  /** What happens to a key depends on that key's own requests only: its bucket and its
      admissions are those of its hits alone. */
  lemma {:induction false} OtherKeysHaveNoEffect(before: map<string, Bucket>, arrivals: seq<Arrival>, key: string)
    ensures Lookup(Buckets(before, arrivals), key) == After(Lookup(before, key), HitsOf(arrivals, key))
    ensures AdmittedOf(before, arrivals, key) == Admitted(Lookup(before, key), HitsOf(arrivals, key))
    decreases |arrivals|
  {
    if arrivals != [] {
      var front, last := arrivals[..|arrivals| - 1], arrivals[|arrivals| - 1];
      OtherKeysHaveNoEffect(before, front, key);
      var hits := HitsOf(arrivals, key);
      if KeyFor(last.request) == key {
        assert hits[..|hits| - 1] == HitsOf(front, key);
      } else {
        assert hits == HitsOf(front, key);
      }
    }
  }

  predicate InOrder(arrivals: seq<Arrival>) {
    forall i, j | 0 <= i < j < |arrivals| :: arrivals[i].now <= arrivals[j].now
  }

  lemma {:induction false} HitsInOrder(arrivals: seq<Arrival>, key: string, largest: nat)
    requires InOrder(arrivals) && KeyCapacityWithin(arrivals, key, largest)
    ensures ClockForward(HitsOf(arrivals, key)) && CapacitiesWithin(HitsOf(arrivals, key), largest)
    decreases |arrivals|
  {
    if arrivals != [] {
      var front, last := arrivals[..|arrivals| - 1], arrivals[|arrivals| - 1];
      assert forall i | 0 <= i < |front| :: front[i] == arrivals[i];
      HitsInOrder(front, key, largest);
      assert KeyFor(last.request) == key ==> 1 <= CapacityFor(last.request) <= largest;
      HitsWithin(front, key);
      assert front != [] ==> front[|front| - 1].now <= last.now;
    }
  }

  lemma {:induction false} HitsWithin(arrivals: seq<Arrival>, key: string)
    requires InOrder(arrivals)
    ensures forall i | 0 <= i < |HitsOf(arrivals, key)| ::
              arrivals != [] && arrivals[0].now <= HitsOf(arrivals, key)[i].now <= arrivals[|arrivals| - 1].now
    decreases |arrivals|
  {
    if arrivals != [] {
      var front, last := arrivals[..|arrivals| - 1], arrivals[|arrivals| - 1];
      HitsWithin(front, key);
      assert front != [] ==> arrivals[0].now <= front[|front| - 1].now <= last.now;
    } else {
      assert HitsOf(arrivals, key) == [];
    }
  }

  lemma {:induction false} HitsConcat(a: seq<Arrival>, b: seq<Arrival>, key: string)
    ensures HitsOf(a + b, key) == HitsOf(a, key) + HitsOf(b, key)
    decreases |b|
  {
    if b == [] {
      assert a + b == a;
    } else {
      assert (a + b)[..|a + b| - 1] == a + b[..|b| - 1];
      HitsConcat(a, b[..|b| - 1], key);
    }
  }

  /** No request of this key has a larger capacity than `largest`. */
  predicate KeyCapacityWithin(arrivals: seq<Arrival>, key: string, largest: nat) {
    forall i | 0 <= i < |arrivals| && KeyFor(arrivals[i].request) == key ::
      (if arrivals[i].request.isPublic || arrivals[i].request.user.None? then 100 else 1000) <= largest
  }

  /** The limiter's promise, for the whole guard: whatever requests came before, and however
      the requests of different keys interleave, in any window of requests it admits for one
      key at most the largest capacity among that key's requests, plus one for every second
      the window lasts, rounded up. */
  lemma GuardWindowBound(history: seq<Arrival>, window: seq<Arrival>, key: string, largest: nat)
    requires window != [] && InOrder(history + window) && KeyCapacityWithin(history + window, key, largest)
    ensures AdmittedOf(Buckets(map[], history), window, key)
            <= largest + CeilDiv(window[|window| - 1].now - window[0].now, 1000)
  {
    var past, hits := HitsOf(history, key), HitsOf(window, key);
    GuardServesHits(history, window, key);
    HitsConcat(history, window, key);
    HitsInOrder(history + window, key, largest);
    LaterInOrder(history, window);
    HitsWithin(window, key);
    if hits != [] {
      WindowBound(past, hits, largest);
      CeilDivMonotone(hits[|hits| - 1].now - hits[0].now, window[|window| - 1].now - window[0].now);
    } else {
      CeilDivMonotone(0, window[|window| - 1].now - window[0].now);
    }
  }

  /** The guard admits every request that comes at least a second after all earlier requests
      of its key, whatever bursts and other keys came before. */
  lemma GuardAdmitsSpaced(history: seq<Arrival>, last: Arrival)
    requires InOrder(history + [last])
    requires forall i | 0 <= i < |history| && KeyFor(history[i].request) == KeyFor(last.request) ::
               history[i].now + 1000 <= last.now
    ensures AdmittedOf(Buckets(map[], history), [last], KeyFor(last.request)) == 1
  {
    var key := KeyFor(last.request);
    OtherKeysHaveNoEffect(map[], history, key);
    EarlierInOrder(history, [last]);
    HitsInOrder(history, key, AUTHENTICATED_CAPACITY);
    HitsAreEarlier(history, key, last.now - 1000);
    NextHitIsAdmitted(HitsOf(history, key), Hit(CapacityFor(last.request), last.now));
    OneArrival(Buckets(map[], history), last);
  }

  lemma HitsAreEarlier(arrivals: seq<Arrival>, key: string, latest: int)
    requires forall i | 0 <= i < |arrivals| && KeyFor(arrivals[i].request) == key :: arrivals[i].now <= latest
    ensures forall h | h in HitsOf(arrivals, key) :: h.now <= latest
  {
    HitsAreArrivals(arrivals, key);
  }

  lemma OneArrival(before: map<string, Bucket>, a: Arrival)
    ensures var key := KeyFor(a.request);
            AdmittedOf(before, [a], key)
            == if Refilled(Lookup(before, key), CapacityFor(a.request), a.now).tokens > 0 then 1 else 0
  {
    assert [a][..0] == [];
  }

  lemma NextHitIsAdmitted(past: seq<Hit>, hit: Hit)
    requires ClockForward(past) && CapacitiesWithin(past, AUTHENTICATED_CAPACITY)
    requires 1 <= hit.capacity <= AUTHENTICATED_CAPACITY
    requires forall h | h in past :: h.now + REFILL_INTERVAL <= hit.now
    ensures Refilled(After(None, past), hit.capacity, hit.now).tokens > 0
  {
    var hits := past + [hit];
    assert hits[..|past|] == past;
    forall i, j | 0 <= i < j < |hits| ensures hits[i].now <= hits[j].now {
      assert hits[i] in past;
    }
    SpacedHitIsAdmitted(None, hits, AUTHENTICATED_CAPACITY, hits[0].now, |past|);
  }

  lemma {:induction false} HitsAreArrivals(arrivals: seq<Arrival>, key: string)
    ensures forall h | h in HitsOf(arrivals, key) ::
              exists i | 0 <= i < |arrivals| :: KeyFor(arrivals[i].request) == key && arrivals[i].now == h.now
  {
    if arrivals != [] {
      var front, last := arrivals[..|arrivals| - 1], arrivals[|arrivals| - 1];
      HitsAreArrivals(front, key);
      forall h | h in HitsOf(arrivals, key)
        ensures exists i | 0 <= i < |arrivals| :: KeyFor(arrivals[i].request) == key && arrivals[i].now == h.now
      {
        if h in HitsOf(front, key) {
          var i :| 0 <= i < |front| && KeyFor(front[i].request) == key && front[i].now == h.now;
          assert arrivals[i] == front[i];
        }
      }
    }
  }

  lemma EarlierInOrder(a: seq<Arrival>, b: seq<Arrival>)
    requires InOrder(a + b)
    ensures InOrder(a)
  {
    forall i, j | 0 <= i < j < |a| ensures a[i].now <= a[j].now {
      assert (a + b)[i] == a[i] && (a + b)[j] == a[j];
    }
  }

  /** Each of the key's arrivals may be one of `n` at once: 100 for public and anonymous
      requests, 1000 for authenticated ones. */
  predicate MayBurst(arrivals: seq<Arrival>, key: string, n: nat) {
    forall i | 0 <= i < |arrivals| && KeyFor(arrivals[i].request) == key ::
      n <= (if arrivals[i].request.isPublic || arrivals[i].request.user.None? then 100 else 1000)
  }

  /** From an empty guard, the first requests of a key are all admitted, up to the smallest
      capacity among them, whatever other keys do. */
  lemma GuardAdmitsFirstBurst(arrivals: seq<Arrival>, key: string)
    requires MayBurst(arrivals, key, |HitsOf(arrivals, key)|)
    ensures AdmittedOf(map[], arrivals, key) == |HitsOf(arrivals, key)|
  {
    OtherKeysHaveNoEffect(map[], arrivals, key);
    HitsMayBurst(arrivals, key, |HitsOf(arrivals, key)|);
    BurstIsAdmitted(None, HitsOf(arrivals, key), |HitsOf(arrivals, key)|);
  }

  /** After any history, and a pause of a second for each request of the burst, a key's burst up
      to its capacity is admitted, whatever other keys do. */
  lemma GuardAdmitsBurstAfterPause(history: seq<Arrival>, window: seq<Arrival>, key: string)
    requires InOrder(history) && MayBurst(window, key, |HitsOf(window, key)|)
    requires Apart(history, window, key, 1000 * |HitsOf(window, key)|)
    ensures AdmittedOf(Buckets(map[], history), window, key) == |HitsOf(window, key)|
  {
    GuardServesHits(history, window, key);
    PastAndBurst(history, window, key);
    BurstAfterPause(HitsOf(history, key), HitsOf(window, key), AUTHENTICATED_CAPACITY);
  }

  lemma GuardServesHits(history: seq<Arrival>, window: seq<Arrival>, key: string)
    ensures AdmittedOf(Buckets(map[], history), window, key)
            == Admitted(After(None, HitsOf(history, key)), HitsOf(window, key))
  {
    OtherKeysHaveNoEffect(map[], history, key);
    OtherKeysHaveNoEffect(Buckets(map[], history), window, key);
  }

  lemma PastAndBurst(history: seq<Arrival>, window: seq<Arrival>, key: string)
    requires InOrder(history) && MayBurst(window, key, |HitsOf(window, key)|)
    requires Apart(history, window, key, 1000 * |HitsOf(window, key)|)
    ensures var past, burst := HitsOf(history, key), HitsOf(window, key);
            && ClockForward(past) && CapacitiesWithin(past, AUTHENTICATED_CAPACITY)
            && (forall i | 0 <= i < |burst| :: |burst| <= burst[i].capacity)
            && forall i, j | 0 <= i < |past| && 0 <= j < |burst| :: past[i].now + 1000 * |burst| <= burst[j].now
  {
    HitsInOrder(history, key, AUTHENTICATED_CAPACITY);
    HitsMayBurst(window, key, |HitsOf(window, key)|);
    HitsAreApart(history, window, key, 1000 * |HitsOf(window, key)|);
  }

  lemma HitsAreApart(history: seq<Arrival>, window: seq<Arrival>, key: string, gap: int)
    requires Apart(history, window, key, gap)
    ensures var past, burst := HitsOf(history, key), HitsOf(window, key);
            forall i, j | 0 <= i < |past| && 0 <= j < |burst| :: past[i].now + gap <= burst[j].now
  {
    var past, burst := HitsOf(history, key), HitsOf(window, key);
    forall i, j | 0 <= i < |past| && 0 <= j < |burst| ensures past[i].now + gap <= burst[j].now {
      HitsApart(history, window, key, gap, i, j);
    }
  }

  /** Every arrival of the key in `history` is `gap` before every one in `window`. */
  predicate Apart(history: seq<Arrival>, window: seq<Arrival>, key: string, gap: int) {
    forall i, j | 0 <= i < |history| && 0 <= j < |window|
                  && KeyFor(history[i].request) == key && KeyFor(window[j].request) == key ::
      history[i].now + gap <= window[j].now
  }

  lemma HitsApart(history: seq<Arrival>, window: seq<Arrival>, key: string, gap: int, i: nat, j: nat)
    requires Apart(history, window, key, gap) && i < |HitsOf(history, key)| && j < |HitsOf(window, key)|
    ensures HitsOf(history, key)[i].now + gap <= HitsOf(window, key)[j].now
  {
    var a, b := HitsOf(history, key)[i], HitsOf(window, key)[j];
    HitsAreArrivals(history, key);
    HitsAreArrivals(window, key);
    var k :| 0 <= k < |history| && KeyFor(history[k].request) == key && history[k].now == a.now;
    var l :| 0 <= l < |window| && KeyFor(window[l].request) == key && window[l].now == b.now;
  }

  lemma {:induction false} HitsMayBurst(arrivals: seq<Arrival>, key: string, n: nat)
    requires MayBurst(arrivals, key, n)
    ensures forall i | 0 <= i < |HitsOf(arrivals, key)| :: n <= HitsOf(arrivals, key)[i].capacity
    decreases |arrivals|
  {
    if arrivals != [] {
      var front := arrivals[..|arrivals| - 1];
      assert forall i | 0 <= i < |front| :: front[i] == arrivals[i];
      HitsMayBurst(front, key, n);
    } else {
      assert HitsOf(arrivals, key) == [];
    }
  }

  /** The answers in the first second of a new key, whose requests are all of one kind: the
      remaining tokens count down from the capacity, 100 or 1000, and then it is refused. */
  lemma FirstSecondAnswers(history: seq<Arrival>, last: Arrival)
    requires forall i | 0 <= i < |history| && KeyFor(history[i].request) == KeyFor(last.request) ::
               && (history[i].request.isPublic || history[i].request.user.None?
                   <==> last.request.isPublic || last.request.user.None?)
    requires var hits := HitsOf(history, KeyFor(last.request));
             forall i | 0 <= i < |hits| :: hits[0].now <= hits[i].now < hits[0].now + 1000
                                           && hits[0].now <= last.now < hits[0].now + 1000
    ensures var key, m := KeyFor(last.request), |HitsOf(history, KeyFor(last.request))|;
            var limit := if last.request.isPublic || last.request.user.None? then 100 else 1000;
            Answer(Lookup(Buckets(map[], history), key), CapacityFor(last.request), last.now)
            == if m < limit then Allowed(limit - 1 - m, limit) else TooManyRequests
  {
    var key := KeyFor(last.request);
    OtherKeysHaveNoEffect(map[], history, key);
    HitsOfOneKind(history, last);
    FirstSecond(HitsOf(history, key), CapacityFor(last.request));
  }

  lemma {:induction false} HitsOfOneKind(history: seq<Arrival>, last: Arrival)
    requires forall i | 0 <= i < |history| && KeyFor(history[i].request) == KeyFor(last.request) ::
               && (history[i].request.isPublic || history[i].request.user.None?
                   <==> last.request.isPublic || last.request.user.None?)
    ensures forall h | h in HitsOf(history, KeyFor(last.request)) :: h.capacity == CapacityFor(last.request)
    decreases |history|
  {
    if history != [] {
      var front := history[..|history| - 1];
      assert forall i | 0 <= i < |front| :: front[i] == history[i];
      HitsOfOneKind(front, last);
    }
  }

  /** A client is known by its wallet, else by its address; all others share one key. */
  lemma KeysOfClients(r: Request)
    ensures forall wallet | r.user == Some(User(Some(wallet))) :: KeyFor(r) == wallet
    ensures forall ip | (r.user.None? || r.user == Some(User(None))) && r.ip == Some(ip) :: KeyFor(r) == ip
    ensures (r.user.None? || r.user == Some(User(None))) && r.ip == None ==> KeyFor(r) == "unknown"
  {
  }

  lemma LaterInOrder(a: seq<Arrival>, b: seq<Arrival>)
    requires InOrder(a + b)
    ensures InOrder(b)
  {
    forall i, j | 0 <= i < j < |b| ensures b[i].now <= b[j].now {
      assert (a + b)[|a| + i] == b[i] && (a + b)[|a| + j] == b[j];
    }
  }

  lemma CeilDivMonotone(a: int, b: int)
    requires a <= b
    ensures CeilDiv(a, REFILL_INTERVAL) <= CeilDiv(b, REFILL_INTERVAL)
  {
  }
}
