/**
 * Fixed-window rate limiting: attempts are counted per subject in clock-aligned windows, and a request
 * first checks its window's counter and then increments it, as two separate steps.
 */
module RateLimits {
  import opened Prelude

  type Millis = int

  const WINDOW_15M: Millis := 15 * 60_000
  const WINDOW_30M: Millis := 30 * 60_000

  /** At most `limit` attempts pass in each aligned window of `window` milliseconds. */
  datatype Policy = Policy(scope: string, limit: nat, window: Millis)

  const CHECKOUT := Policy("billing_checkout_account", 5, WINDOW_30M)
  const PORTAL := Policy("billing_portal_account", 10, WINDOW_30M)
  const MEMBERSHIP := Policy("membership_inventory_account", 60, WINDOW_15M)

  // ---- Subjects -----------------------------------------------------------

  function InventorySubject(account: string): string {
    "account:" + account
  }

  function EligibilitySubject(account: string): string {
    "local_eligibility:" + account
  }

  function CommitmentSubject(account: string): string {
    "community_commitment:" + account
  }

  /** Three limiters share one scope; their subjects, and those of two accounts, never coincide. */
  lemma SubjectsDisjoint(a: string, b: string)
    ensures InventorySubject(a) != EligibilitySubject(b)
    ensures InventorySubject(a) != CommitmentSubject(b)
    ensures EligibilitySubject(a) != CommitmentSubject(b)
    ensures InventorySubject(a) == InventorySubject(b) ==> a == b
    ensures EligibilitySubject(a) == EligibilitySubject(b) ==> a == b
    ensures CommitmentSubject(a) == CommitmentSubject(b) ==> a == b
  {
    assert InventorySubject(a)[0] == 'a' && EligibilitySubject(b)[0] == 'l' && CommitmentSubject(b)[0] == 'c';
    assert EligibilitySubject(a)[0] == 'l';
    assert InventorySubject(a)[8..] == a && InventorySubject(b)[8..] == b;
    assert EligibilitySubject(a)[18..] == a && EligibilitySubject(b)[18..] == b;
    assert CommitmentSubject(a)[21..] == a && CommitmentSubject(b)[21..] == b;
  }

  // ---- The reference: what a limiter should accept ------------------------

  datatype Attempt = Attempt(subject: string, at: Millis)

  /** The start of the aligned window that holds `now`. */
  function FloorWindowStart(now: Millis, window: Millis): (start: Millis)
    requires window > 0
    ensures start <= now < start + window
  {
    now / window * window
  }

  predicate Within(a: Attempt, subject: string, lo: Millis, hi: Millis) {
    a.subject == subject && lo <= a.at < hi
  }

  /** Attempts of a subject with timestamps in `[lo, hi)`. */
  function Count(attempts: seq<Attempt>, subject: string, lo: Millis, hi: Millis): nat {
    if attempts == [] then
      0
    else
      var last := attempts[|attempts| - 1];
      Count(attempts[..|attempts| - 1], subject, lo, hi) + if Within(last, subject, lo, hi) then 1 else 0
  }

  /** Earlier attempts of the same subject in the same aligned window. */
  function EarlierInWindow(p: Policy, earlier: seq<Attempt>, a: Attempt): nat
    requires p.window > 0
  {
    var start := FloorWindowStart(a.at, p.window);
    Count(earlier, a.subject, start, start + p.window)
  }

  predicate Accepts(p: Policy, earlier: seq<Attempt>, a: Attempt)
    requires p.window > 0
  {
    EarlierInWindow(p, earlier, a) < p.limit
  }

  /** An attempt leaves an audit event when it is refused, and already when it is the last to pass. */
  predicate Audits(p: Policy, earlier: seq<Attempt>, a: Attempt)
    requires p.window > 0
  {
    !Accepts(p, earlier, a) || EarlierInWindow(p, earlier, a) + 1 >= p.limit
  }

  function AcceptedCount(p: Policy, attempts: seq<Attempt>, subject: string, lo: Millis, hi: Millis): nat
    requires p.window > 0
  {
    if attempts == [] then
      0
    else
      var earlier, last := attempts[..|attempts| - 1], attempts[|attempts| - 1];
      AcceptedCount(p, earlier, subject, lo, hi)
      + if Within(last, subject, lo, hi) && Accepts(p, earlier, last) then 1 else 0
  }

  function AuditCount(p: Policy, attempts: seq<Attempt>, subject: string, lo: Millis, hi: Millis): nat
    requires p.window > 0
  {
    if attempts == [] then
      0
    else
      var earlier, last := attempts[..|attempts| - 1], attempts[|attempts| - 1];
      AuditCount(p, earlier, subject, lo, hi)
      + if Within(last, subject, lo, hi) && Audits(p, earlier, last) then 1 else 0
  }

  // ---- One aligned window -------------------------------------------------

  lemma Multiples(x: int, w: int)
    requires w > 0
    ensures x >= 1 ==> x * w >= w
    ensures x <= -1 ==> x * w <= -w
    ensures x <= 0 ==> x * w <= 0
  {
  }

  lemma SameIndex(q: int, k: int, w: int)
    requires w > 0 && -w < q * w - k * w < w
    ensures q == k
  {
    assert (q - k) * w == q * w - k * w;
    Multiples(q - k, w);
  }

  lemma SameWindow(now: Millis, window: Millis, k: int)
    requires window > 0 && k * window <= now < k * window + window
    ensures now / window == k && FloorWindowStart(now, window) == k * window
  {
    var start := FloorWindowStart(now, window);
    SameIndex(now / window, k, window);
  }

  /** Of `n` attempts in an aligned window exactly the first `limit` pass, and each from that one on is audited. */
  lemma {:induction false} AlignedWindowExactly(p: Policy, attempts: seq<Attempt>, subject: string, k: int)
    requires p.window > 0 && p.limit >= 1
    ensures var lo, hi := k * p.window, k * p.window + p.window;
      var n := Count(attempts, subject, lo, hi);
      && AcceptedCount(p, attempts, subject, lo, hi) == (if n <= p.limit then n else p.limit)
      && AuditCount(p, attempts, subject, lo, hi) == (if n < p.limit then 0 else n - p.limit + 1)
  {
    if attempts != [] {
      var last := attempts[|attempts| - 1];
      AlignedWindowExactly(p, attempts[..|attempts| - 1], subject, k);
      if Within(last, subject, k * p.window, k * p.window + p.window) {
        SameWindow(last.at, p.window, k);
      }
    }
  }

  // ---- Any interval -------------------------------------------------------

  lemma {:induction false} AcceptedSplits(
      p: Policy, attempts: seq<Attempt>, subject: string, lo: Millis, mid: Millis, hi: Millis)
    requires p.window > 0 && lo <= mid <= hi
    ensures AcceptedCount(p, attempts, subject, lo, hi)
         == AcceptedCount(p, attempts, subject, lo, mid) + AcceptedCount(p, attempts, subject, mid, hi)
  {
    if attempts != [] {
      AcceptedSplits(p, attempts[..|attempts| - 1], subject, lo, mid, hi);
    }
  }

  lemma {:induction false} AcceptedGrows(
      p: Policy, attempts: seq<Attempt>, subject: string, lo: Millis, hi: Millis, lower: Millis, higher: Millis)
    requires p.window > 0 && lower <= lo && hi <= higher
    ensures AcceptedCount(p, attempts, subject, lo, hi) <= AcceptedCount(p, attempts, subject, lower, higher)
  {
    if attempts != [] {
      AcceptedGrows(p, attempts[..|attempts| - 1], subject, lo, hi, lower, higher);
    }
  }

  /** `n` consecutive aligned windows accept at most `n` limits. */
  lemma {:induction false} ConsecutiveWindows(p: Policy, attempts: seq<Attempt>, subject: string, k: int, n: nat)
    requires p.window > 0 && p.limit >= 1
    ensures AcceptedCount(p, attempts, subject, k * p.window, (k + n) * p.window) <= n * p.limit
    decreases n
  {
    if n == 0 {
      NothingWithin(p, attempts, subject, k * p.window);
    } else {
      var mid, hi := (k + n - 1) * p.window, (k + n) * p.window;
      assert hi == mid + p.window;
      assert mid >= k * p.window by { assert (n - 1) * p.window >= 0; assert mid == k * p.window + (n - 1) * p.window; }
      ConsecutiveWindows(p, attempts, subject, k, n - 1);
      AlignedWindowExactly(p, attempts, subject, k + n - 1);
      AcceptedSplits(p, attempts, subject, k * p.window, mid, hi);
      assert n * p.limit == (n - 1) * p.limit + p.limit;
    }
  }

  lemma {:induction false} NothingWithin(p: Policy, attempts: seq<Attempt>, subject: string, lo: Millis)
    requires p.window > 0
    ensures AcceptedCount(p, attempts, subject, lo, lo) == 0
  {
    if attempts != [] { NothingWithin(p, attempts[..|attempts| - 1], subject, lo); }
  }

  function CeilDiv(d: int, w: int): int
    requires w > 0
  {
    (d + w - 1) / w
  }

  /** An interval of length `d` meets at most `ceil(d / w) + 1` aligned windows. */
  lemma WindowsMet(lo: Millis, d: int, w: int)
    requires d > 0 && w > 0
    ensures lo + d <= (lo / w + CeilDiv(d, w) + 1) * w
    ensures CeilDiv(d, w) >= 1
  {
    var q, c := lo / w, CeilDiv(d, w);
    assert FloorWindowStart(lo, w) == q * w && FloorWindowStart(d + w - 1, w) == c * w;
    Multiples(c, w);
    assert (q + c + 1) * w == q * w + c * w + w;
  }

  /**
   * For any attempts handled one at a time, with clocks in any order: an interval of length `d` accepts at
   * most `(ceil(d / window) + 1) * limit`.
   */
  lemma IntervalBound(p: Policy, attempts: seq<Attempt>, subject: string, lo: Millis, d: int)
    requires p.window > 0 && p.limit >= 1 && d > 0
    ensures AcceptedCount(p, attempts, subject, lo, lo + d) <= (CeilDiv(d, p.window) + 1) * p.limit
  {
    var k, n := lo / p.window, CeilDiv(d, p.window) + 1;
    WindowsMet(lo, d, p.window);
    assert k * p.window <= lo;
    assert (k + n) * p.window == (lo / p.window + CeilDiv(d, p.window) + 1) * p.window;
    AcceptedGrows(p, attempts, subject, lo, lo + d, k * p.window, (k + n) * p.window);
    ConsecutiveWindows(p, attempts, subject, k, n);
  }

  /** In particular twice the limit in any one window length. */
  lemma WindowLengthBound(p: Policy, attempts: seq<Attempt>, subject: string, lo: Millis)
    requires p.window > 0 && p.limit >= 1
    ensures AcceptedCount(p, attempts, subject, lo, lo + p.window) <= 2 * p.limit
  {
    IntervalBound(p, attempts, subject, lo, p.window);
    SameWindow(p.window + p.window - 1, p.window, 1);
  }

  /** The shipped policies: checkouts and portal visits per half hour, membership calls per quarter of an hour. */
  lemma ShippedBounds(attempts: seq<Attempt>, subject: string, lo: Millis)
    ensures AcceptedCount(CHECKOUT, attempts, subject, lo, lo + WINDOW_30M) <= 10
    ensures AcceptedCount(PORTAL, attempts, subject, lo, lo + WINDOW_30M) <= 20
    ensures AcceptedCount(MEMBERSHIP, attempts, subject, lo, lo + WINDOW_15M) <= 120
  {
    WindowLengthBound(CHECKOUT, attempts, subject, lo);
    WindowLengthBound(PORTAL, attempts, subject, lo);
    WindowLengthBound(MEMBERSHIP, attempts, subject, lo);
  }

  /** In each aligned half hour the first five checkouts and the first ten portal visits pass, and no others. */
  lemma ShippedExactly(attempts: seq<Attempt>, subject: string, k: int)
    ensures var n := Count(attempts, subject, k * 1_800_000, k * 1_800_000 + 1_800_000);
      && AcceptedCount(CHECKOUT, attempts, subject, k * 1_800_000, k * 1_800_000 + 1_800_000)
           == (if n <= 5 then n else 5)
      && AcceptedCount(PORTAL, attempts, subject, k * 1_800_000, k * 1_800_000 + 1_800_000)
           == (if n <= 10 then n else 10)
    ensures var n := Count(attempts, subject, k * 900_000, k * 900_000 + 900_000);
      AcceptedCount(MEMBERSHIP, attempts, subject, k * 900_000, k * 900_000 + 900_000) == (if n <= 60 then n else 60)
  {
    AlignedWindowExactly(CHECKOUT, attempts, subject, k);
    AlignedWindowExactly(PORTAL, attempts, subject, k);
    AlignedWindowExactly(MEMBERSHIP, attempts, subject, k);
  }

  // ---- The limiter --------------------------------------------------------

  /** A row of the rate-limit table: a subject and the aligned window that starts at `index * window`. */
  datatype Bucket = Bucket(subject: string, index: int)

  ghost function InBucket(attempts: seq<Attempt>, b: Bucket, window: Millis): nat {
    Count(attempts, b.subject, b.index * window, b.index * window + window)
  }

  /** An attempt is counted in the bucket of its own window, and in no other. */
  lemma CountedInOneBucket(attempts: seq<Attempt>, a: Attempt, b: Bucket, window: Millis)
    requires window > 0
    ensures InBucket(attempts + [a], b, window)
         == InBucket(attempts, b, window) + if b == Bucket(a.subject, a.at / window) then 1 else 0
  {
    assert (attempts + [a])[..|attempts|] == attempts;
    if b.index * window <= a.at < b.index * window + window {
      SameWindow(a.at, window, b.index);
    } else {
      assert FloorWindowStart(a.at, window) == a.at / window * window;
    }
  }

  /** The limiter of one scope. Its contracts refer to the attempts so far, not to the counters. */
  class RateLimiter {
    const policy: Policy
    var buckets: map<Bucket, nat>
    var auditEvents: seq<Attempt>
    ghost var history: seq<Attempt>

    constructor (policy: Policy)
      requires policy.window > 0
      ensures Valid() && history == [] && auditEvents == [] && this.policy == policy
    {
      this.policy := policy;
      buckets, auditEvents, history := map[], [], [];
    }

    ghost predicate Valid()
      reads this
    {
      && policy.window > 0
      && (forall b: Bucket {:trigger InBucket(history, b, policy.window)} ::
            InBucket(history, b, policy.window) == if b in buckets then buckets[b] else 0)
    }

    /** Get or create the bucket of `now`, and read its counter. */
    method CountInWindow(subject: string, now: Millis) returns (bucket: Bucket, count: nat)
      requires Valid()
      modifies this`buckets
      ensures Valid() && bucket == Bucket(subject, now / policy.window) && bucket in buckets
      ensures count == buckets[bucket] == EarlierInWindow(policy, history, Attempt(subject, now))
    {
      bucket := Bucket(subject, now / policy.window);
      assert InBucket(history, bucket, policy.window) == EarlierInWindow(policy, history, Attempt(subject, now));
      if bucket !in buckets {
        buckets := buckets[bucket := 0];
      }
      count := buckets[bucket];
    }

    method IsThrottled(subject: string, now: Millis) returns (throttled: bool)
      requires Valid()
      modifies this`buckets
      ensures Valid()
      ensures throttled <==> !Accepts(policy, history, Attempt(subject, now))
    {
      var _, count := CountInWindow(subject, now);
      throttled := count >= policy.limit;
    }

    method RecordAttempt(subject: string, now: Millis, throttled: bool) returns (ordinal: nat)
      requires Valid()
      modifies this
      ensures Valid() && history == old(history) + [Attempt(subject, now)]
      ensures ordinal == EarlierInWindow(policy, old(history), Attempt(subject, now)) + 1
      ensures auditEvents ==
              old(auditEvents) + if throttled || ordinal >= policy.limit then [Attempt(subject, now)] else []
    {
      var bucket, before := CountInWindow(subject, now);
      buckets := buckets[bucket := before + 1];
      if throttled || buckets[bucket] >= policy.limit {
        auditEvents := auditEvents + [Attempt(subject, now)];
      }
      ordinal := before + 1;
      forall b: Bucket ensures InBucket(history + [Attempt(subject, now)], b, policy.window)
                            == if b in buckets then buckets[b] else 0 {
        CountedInOneBucket(history, Attempt(subject, now), b, policy.window);
        assert InBucket(history, b, policy.window) >= 0;
      }
      history := history + [Attempt(subject, now)];
    }

    /** The route: check, record, and only then go on. */
    method HandleRequest(subject: string, now: Millis) returns (accepted: bool)
      requires Valid()
      modifies this
      ensures Valid() && history == old(history) + [Attempt(subject, now)]
      ensures accepted <==> Accepts(policy, old(history), Attempt(subject, now))
      ensures auditEvents == old(auditEvents)
        + if Audits(policy, old(history), Attempt(subject, now)) then [Attempt(subject, now)] else []
    {
      var throttled := IsThrottled(subject, now);
      var ordinal := RecordAttempt(subject, now, throttled);
      accepted := !throttled;
    }
  }

  // ---- Overlapping requests -----------------------------------------------

  /** In one bucket: the counter, the open calls with their verdicts, and how many passed. */
  datatype Gate = Gate(counter: nat, open: map<nat, bool>, accepted: nat)

  /** The two atomic steps of a call: reading the counter, and incrementing it. */
  datatype Step = Check(call: nat) | Increment(call: nat)

  const CLOSED := Gate(0, map[], 0)

  predicate Enabled(g: Gate, step: Step) {
    match step
    case Check(call) => call !in g.open
    case Increment(call) => call in g.open
  }

  function Take(g: Gate, step: Step, limit: nat): Gate
    requires Enabled(g, step)
  {
    match step
    case Check(call) =>
      var passes := g.counter < limit;
      g.(open := g.open[call := passes], accepted := g.accepted + if passes then 1 else 0)
    case Increment(call) =>
      g.(counter := g.counter + 1, open := g.open - {call})
  }

  /** Steps that are not enabled do not happen. */
  function Interleave(steps: seq<Step>, limit: nat): Gate {
    if steps == [] then
      CLOSED
    else
      var before, last := Interleave(steps[..|steps| - 1], limit), steps[|steps| - 1];
      if Enabled(before, last) then Take(before, last, limit) else before
  }

  /** How many of the steps began a call, and how many completed one. */
  function Begun(steps: seq<Step>, limit: nat): nat {
    if steps == [] then
      0
    else
      var shorter, last := steps[..|steps| - 1], steps[|steps| - 1];
      Begun(shorter, limit) + if last.Check? && Enabled(Interleave(shorter, limit), last) then 1 else 0
  }

  function Completed(steps: seq<Step>, limit: nat): nat {
    if steps == [] then
      0
    else
      var shorter, last := steps[..|steps| - 1], steps[|steps| - 1];
      Completed(shorter, limit) + if last.Increment? && Enabled(Interleave(shorter, limit), last) then 1 else 0
  }

  /** Never more than `k` calls between their check and their increment. */
  ghost predicate AtMostInFlight(steps: seq<Step>, limit: nat, k: nat) {
    forall n :: 0 <= n <= |steps| ==> |Interleave(steps[..n], limit).open| <= k
  }

  lemma OpenSize(open: map<nat, bool>, call: nat, passes: bool)
    ensures call !in open ==> |open[call := passes]| == |open| + 1
    ensures call in open ==> |open - {call}| == |open| - 1
  {
    if call !in open {
      assert open[call := passes].Keys == open.Keys + {call};
      assert |open[call := passes].Keys| == |open.Keys| + 1;
    } else {
      assert (open - {call}).Keys == open.Keys - {call};
      assert |(open - {call}).Keys| == |open.Keys| - 1;
    }
  }

  /** The race lets through at most `k - 1` calls beyond the limit, and the counter still counts every call. */
  lemma {:induction false} OverlapBound(steps: seq<Step>, limit: nat, k: nat)
    requires limit >= 1 && k >= 1 && AtMostInFlight(steps, limit, k)
    ensures var g := Interleave(steps, limit);
      && g.counter == Completed(steps, limit) && g.counter + |g.open| == Begun(steps, limit)
      && g.accepted <= g.counter + |g.open|
      && g.accepted <= limit + k - 1
  {
    if steps != [] {
      var shorter, last := steps[..|steps| - 1], steps[|steps| - 1];
      assert forall n :: 0 <= n <= |shorter| ==> shorter[..n] == steps[..n];
      OverlapBound(shorter, limit, k);
      var before := Interleave(shorter, limit);
      assert steps[..|steps|] == steps;
      assert |Interleave(steps[..|steps|], limit).open| <= k;
      if Enabled(before, last) {
        OpenSize(before.open, last.call, before.counter < limit);
      }
    }
  }

  // ---- The bound is attained ----------------------------------------------

  /** `n` calls one after another. */
  function Calls(n: nat): seq<Step> {
    if n == 0 then [] else Calls(n - 1) + [Check(n - 1)] + [Increment(n - 1)]
  }

  /** `n` further checks, none of them followed by its increment. */
  function Checks(first: nat, n: nat): seq<Step> {
    if n == 0 then [] else Checks(first, n - 1) + [Check(first + n - 1)]
  }

  lemma TakeLast(steps: seq<Step>, last: Step, limit: nat)
    ensures var before := Interleave(steps, limit);
      Interleave(steps + [last], limit) == if Enabled(before, last) then Take(before, last, limit) else before
  {
    assert (steps + [last])[..|steps|] == steps;
  }

  lemma {:induction false} CallsGate(n: nat, limit: nat)
    ensures Interleave(Calls(n), limit) == Gate(n, map[], if n <= limit then n else limit)
  {
    if n > 0 {
      CallsGate(n - 1, limit);
      TakeLast(Calls(n - 1), Check(n - 1), limit);
      TakeLast(Calls(n - 1) + [Check(n - 1)], Increment(n - 1), limit);
      var open: map<nat, bool> := map[n - 1 := n - 1 < limit];
      assert open - {n - 1} == map[];
    }
  }

  /** Without overlap the gate is the limiter: it counts and accepts what an aligned window of attempts does. */
  lemma SequentialGateIsLimiter(p: Policy, attempts: seq<Attempt>, subject: string, k: int)
    requires p.window > 0 && p.limit >= 1
    ensures var lo, hi := k * p.window, k * p.window + p.window;
      var g := Interleave(Calls(Count(attempts, subject, lo, hi)), p.limit);
      && g.counter == Count(attempts, subject, lo, hi)
      && g.accepted == AcceptedCount(p, attempts, subject, lo, hi)
  {
    AlignedWindowExactly(p, attempts, subject, k);
    CallsGate(Count(attempts, subject, k * p.window, k * p.window + p.window), p.limit);
  }

  /** `k` requests that all check before any of them increments: `limit + k - 1` of them pass. */
  lemma {:induction false} BoundAttained(limit: nat, k: nat)
    requires limit >= 1
    ensures var g := Interleave(Calls(limit - 1) + Checks(limit - 1, k), limit);
      && g.accepted == limit + k - 1 && g.counter == limit - 1 && |g.open| == k
      && (forall call <- g.open :: limit - 1 <= call < limit - 1 + k)
  {
    if k == 0 {
      CallsGate(limit - 1, limit);
      assert Calls(limit - 1) + Checks(limit - 1, 0) == Calls(limit - 1);
    } else {
      BoundAttained(limit, k - 1);
      var steps, last := Calls(limit - 1) + Checks(limit - 1, k - 1), Check(limit - 1 + k - 1);
      assert Calls(limit - 1) + Checks(limit - 1, k) == steps + [last];
      TakeLast(steps, last, limit);
      hide Interleave, Calls, Checks;
      OpenSize(Interleave(steps, limit).open, last.call, true);
    }
  }
}
