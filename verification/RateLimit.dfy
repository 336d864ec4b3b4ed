/** rate-limit.guard.ts and rate-limit.repository.ts: a fixed-window counter for each
    client address and route. Instants are milliseconds. */
module RateLimit {
  import opened Numbers

  datatype Config = Config(windowSeconds: int, max: nat) {
    function WindowMs(): int { windowSeconds * 1000 }
  }

  predicate ValidConfig(cfg: Config) { cfg.windowSeconds > 0 }

  datatype Bucket = Bucket(ip: string, route: string, windowStart: int)

  datatype Request = Request(ip: string, route: string, at: int)

  datatype Outcome = Admitted | Limited(retryAfterSeconds: int)

  function WindowStart(cfg: Config, at: int): int
    requires ValidConfig(cfg)
  {
    at / cfg.WindowMs() * cfg.WindowMs()
  }

  function BucketOf(cfg: Config, r: Request): Bucket
    requires ValidConfig(cfg)
  {
    Bucket(r.ip, r.route, WindowStart(cfg, r.at))
  }

  function Count(buckets: map<Bucket, nat>, b: Bucket): nat {
    if b in buckets then buckets[b] else 0
  }

  function OutcomeOf(cfg: Config, count: nat, r: Request): Outcome
    requires ValidConfig(cfg)
  {
    if count > cfg.max then Limited(CeilSeconds(WindowStart(cfg, r.at) + cfg.WindowMs() - r.at)) else Admitted
  }

  class RateLimitGuard {
    var buckets: map<Bucket, nat>

    constructor ()
      ensures buckets == map[]
    {
      buckets := map[];
    }

    /** Insert the bucket with one hit, or add a hit to it. */
    method HitAndCount(b: Bucket) returns (count: nat)
      modifies this
      ensures count == Count(old(buckets), b) + 1
      ensures buckets == old(buckets)[b := count]
    {
      if b in buckets {
        buckets := buckets[b := buckets[b] + 1];
      } else {
        buckets := buckets[b := 1];
      }
      count := buckets[b];
    }

    method CanActivate(cfg: Config, r: Request) returns (outcome: Outcome)
      requires ValidConfig(cfg)
      modifies this
      ensures outcome == OutcomeOf(cfg, Count(old(buckets), BucketOf(cfg, r)) + 1, r)
      ensures buckets == Hit(cfg, old(buckets), r)
    {
      var windowMs := cfg.windowSeconds * 1000;
      var windowStart := r.at / windowMs * windowMs;
      var count := HitAndCount(Bucket(r.ip, r.route, windowStart));
      if count > cfg.max {
        var wait := windowStart + windowMs - r.at;
        outcome := Limited(CeilSeconds(wait));
      } else {
        outcome := Admitted;
      }
    }
  }

  function Hit(cfg: Config, buckets: map<Bucket, nat>, r: Request): map<Bucket, nat>
    requires ValidConfig(cfg)
  {
    var b := BucketOf(cfg, r);
    buckets[b := Count(buckets, b) + 1]
  }

  /** The requests let through, in the order they came; instances may disagree on the
      time, so the instants need not be in order. */
  function Admissions(cfg: Config, buckets: map<Bucket, nat>, requests: seq<Request>): seq<Request>
    requires ValidConfig(cfg)
    decreases |requests|
  {
    if requests == [] then []
    else
      var r := requests[0];
      (if OutcomeOf(cfg, Count(buckets, BucketOf(cfg, r)) + 1, r) == Admitted then [r] else [])
      + Admissions(cfg, Hit(cfg, buckets, r), requests[1..])
  }

  /** How many of the requests are of this address and route, at `from` or later and
      before `to`. */
  function Within(requests: seq<Request>, ip: string, route: string, from: int, to: int): nat {
    if requests == [] then 0
    else
      var r := requests[0];
      (if r.ip == ip && r.route == route && from <= r.at < to then 1 else 0)
      + Within(requests[1..], ip, route, from, to)
  }

  // ---------- windows ----------

  lemma WindowOf(cfg: Config, at: int)
    requires ValidConfig(cfg)
    ensures WindowStart(cfg, at) <= at < WindowStart(cfg, at) + cfg.WindowMs()
  {
    var w := cfg.WindowMs();
    assert at == at / w * w + at % w;
  }

  /** The aligned windows do not overlap. */
  lemma WindowUnique(cfg: Config, k: int, at: int)
    requires ValidConfig(cfg)
    requires k * cfg.WindowMs() <= at < k * cfg.WindowMs() + cfg.WindowMs()
    ensures WindowStart(cfg, at) == k * cfg.WindowMs()
  {
    WindowOf(cfg, at);
    var w, j := cfg.WindowMs(), at / cfg.WindowMs();
    if j < k { NextMultiple(w, j, k); }
    if k < j { NextMultiple(w, k, j); }
  }

  lemma NextMultiple(w: int, a: int, b: int)
    requires w > 0 && a < b
    ensures a * w + w <= b * w
  {
    assert (a + 1) * w <= b * w;
  }

  lemma {:induction false} WindowAdmits(
    cfg: Config, buckets: map<Bucket, nat>, requests: seq<Request>, ip: string, route: string, k: int)
    requires ValidConfig(cfg)
    ensures var start, hits := k * cfg.WindowMs(), Count(buckets, Bucket(ip, route, k * cfg.WindowMs()));
            Within(Admissions(cfg, buckets, requests), ip, route, start, start + cfg.WindowMs())
            == Min(Within(requests, ip, route, start, start + cfg.WindowMs()),
                   if hits >= cfg.max then 0 else cfg.max - hits)
    decreases |requests|
  {
    if requests != [] {
      var r := requests[0];
      var rest := Admissions(cfg, Hit(cfg, buckets, r), requests[1..]);
      WindowAdmits(cfg, Hit(cfg, buckets, r), requests[1..], ip, route, k);
      WindowOf(cfg, r.at);
      if k * cfg.WindowMs() <= r.at < k * cfg.WindowMs() + cfg.WindowMs() { WindowUnique(cfg, k, r.at); }
      assert ([r] + rest)[1..] == rest;
      assert [] + rest == rest;
    }
  }

  /** An aligned window lets through as many as come, up to the maximum and no further. */
  lemma AlignedWindowBound(cfg: Config, requests: seq<Request>, ip: string, route: string, k: int)
    requires ValidConfig(cfg)
    ensures var start, end := k * (cfg.windowSeconds * 1000), (k + 1) * (cfg.windowSeconds * 1000);
            Within(Admissions(cfg, map[], requests), ip, route, start, end)
            == Min(Within(requests, ip, route, start, end), cfg.max)
  {
    NextStart(cfg.WindowMs(), k);
    WindowAdmits(cfg, map[], requests, ip, route, k);
  }

  lemma {:induction false} WithinSplits(requests: seq<Request>, ip: string, route: string, from: int, mid: int, to: int)
    requires from <= mid <= to
    ensures Within(requests, ip, route, from, to)
         == Within(requests, ip, route, from, mid) + Within(requests, ip, route, mid, to)
  {
    if requests != [] { WithinSplits(requests[1..], ip, route, from, mid, to); }
  }

  /** Any stretch of one window's length, wherever it starts, lets at most twice the
      maximum through. */
  lemma AnyWindowBound(cfg: Config, requests: seq<Request>, ip: string, route: string, from: int)
    requires ValidConfig(cfg)
    ensures Within(Admissions(cfg, map[], requests), ip, route, from, from + cfg.windowSeconds * 1000) <= 2 * cfg.max
  {
    var w, k := cfg.WindowMs(), from / cfg.WindowMs();
    var passed, start := Admissions(cfg, map[], requests), k * w;
    WindowOf(cfg, from);
    NextStart(w, k);
    WindowAdmits(cfg, map[], requests, ip, route, k);
    WindowAdmits(cfg, map[], requests, ip, route, k + 1);
    WithinSplits(passed, ip, route, start, from, start + w);
    WithinSplits(passed, ip, route, start + w, from + w, start + w + w);
    WithinSplits(passed, ip, route, from, start + w, from + w);
  }

  lemma NextStart(w: int, k: int)
    ensures (k + 1) * w == k * w + w
  {}

  /** The advertised wait is at least a second and at most a window, and the least number of
      whole seconds after which a client is in the next window. */
  lemma RetryAfter(cfg: Config, count: nat, r: Request)
    requires ValidConfig(cfg) && OutcomeOf(cfg, count, r).Limited?
    ensures var wait := OutcomeOf(cfg, count, r).retryAfterSeconds;
            && 1 <= wait <= cfg.windowSeconds
            && WindowStart(cfg, r.at + 1000 * wait) == WindowStart(cfg, r.at) + cfg.windowSeconds * 1000
            && WindowStart(cfg, r.at + 1000 * (wait - 1)) == WindowStart(cfg, r.at)
  {
    var w, k := cfg.WindowMs(), r.at / cfg.WindowMs();
    WindowOf(cfg, r.at);
    NextStart(w, k);
    var left := k * w + w - r.at;
    var wait := CeilSeconds(left);
    assert 1000 * (wait - 1) < left <= 1000 * wait;
    WindowUnique(cfg, k + 1, r.at + 1000 * wait);
    WindowUnique(cfg, k, r.at + 1000 * (wait - 1));
  }
}
