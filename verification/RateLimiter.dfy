/**
 The in-memory sliding-window limiter of `backend/src/feedbackRateLimit.js`, with its second burst window.
 */
module RateLimiter {
  import opened Wrappers

  datatype Config = Config(windowMs: nat, max: nat, burstWindowMs: nat, burstMax: nat) {
    predicate BurstOn() { burstWindowMs > 0 && burstMax > 0 }
  }

  datatype Bucket = Bucket(baseHits: seq<int>, burstHits: seq<int>)

  const EMPTY_BUCKET := Bucket([], [])

  /** Drops the leading entries older than the cutoff. */
  function Pruned(entries: seq<int>, cutoff: int): seq<int> {
    if entries != [] && entries[0] < cutoff then Pruned(entries[1..], cutoff) else entries
  }

  method Prune(entries: seq<int>, cutoff: int) returns (kept: seq<int>)
    ensures kept == Pruned(entries, cutoff)
  {
    var idx := 0;
    assert entries[0..] == entries;
    while idx < |entries| && entries[idx] < cutoff
      invariant 0 <= idx <= |entries|
      invariant Pruned(entries[idx..], cutoff) == Pruned(entries, cutoff)
    {
      assert entries[idx..][1..] == entries[idx + 1..];
      idx := idx + 1;
    }
    return entries[idx..];
  }

  /** The bucket after both windows have moved up to `now`. */
  function Refreshed(cfg: Config, b: Bucket, now: int): Bucket {
    Bucket(Pruned(b.baseHits, now - cfg.windowMs),
           if cfg.BurstOn() then Pruned(b.burstHits, now - cfg.burstWindowMs) else [])
  }

  /** A refreshed bucket has room in every window in force. */
  predicate Admits(cfg: Config, b: Bucket) {
    |b.baseHits| < cfg.max && (cfg.BurstOn() ==> |b.burstHits| < cfg.burstMax)
  }

  function Recorded(cfg: Config, b: Bucket, now: int): Bucket {
    Bucket(b.baseHits + [now], if cfg.BurstOn() then b.burstHits + [now] else b.burstHits)
  }

  /** `hits[0] || now` */
  function Oldest(hits: seq<int>, now: int): int {
    if hits == [] || hits[0] == 0 then now else hits[0]
  }

  function AtLeastZero(x: int): nat { if x < 0 then 0 else x }

  function Max(a: nat, b: nat): nat { if a < b then b else a }

  function BaseWait(cfg: Config, b: Bucket, now: int): nat {
    AtLeastZero(cfg.windowMs - (now - Oldest(b.baseHits, now)))
  }

  function BurstWait(cfg: Config, b: Bucket, now: int): nat {
    if cfg.BurstOn() then AtLeastZero(cfg.burstWindowMs - (now - Oldest(b.burstHits, now))) else 0
  }

  /** The wait a refusal works out, over both windows. */
  function RetryAfterMs(cfg: Config, b: Bucket, now: int): nat {
    Max(BaseWait(cfg, b, now), BurstWait(cfg, b, now))
  }

  /** What the client is told, in the header and in the body: whole seconds, rounded up. */
  function Seconds(ms: nat): nat { (ms + 999) / 1000 }

  function Told(outcome: Option<nat>): Option<nat> {
    match outcome case None => None case Some(ms) => Some(Seconds(ms))
  }

  type Buckets = map<string, Bucket>

  function BucketFor(buckets: Buckets, key: string): Bucket {
    if key in buckets then buckets[key] else EMPTY_BUCKET
  }

  /** `None` is admission; a refusal carries its waiting time in milliseconds. */
  function Outcome(cfg: Config, b: Bucket, now: int): Option<nat> {
    var r := Refreshed(cfg, b, now);
    if Admits(cfg, r) then None else Some(RetryAfterMs(cfg, r, now))
  }

  /** Refusal keeps the refreshed bucket only for a key already stored: a new bucket is not put in the map. */
  function After(cfg: Config, buckets: Buckets, key: string, now: int): Buckets {
    var r := Refreshed(cfg, BucketFor(buckets, key), now);
    if Admits(cfg, r) then buckets[key := Recorded(cfg, r, now)]
    else if key in buckets then buckets[key := r]
    else buckets
  }

  class Limiter {
    const cfg: Config
    var buckets: Buckets

    constructor (cfg: Config)
      ensures this.cfg == cfg && buckets == map[]
    {
      this.cfg := cfg;
      buckets := map[];
    }

    /** `Some` is a refusal with the seconds it reports. */
    method Request(key: string, current: int) returns (retryAfterSeconds: Option<nat>)
      modifies this`buckets
      ensures retryAfterSeconds == Told(Outcome(cfg, BucketFor(old(buckets), key), current))
      ensures buckets == After(cfg, old(buckets), key, current)
    {
      var bucket := BucketFor(buckets, key);
      var base := Prune(bucket.baseHits, current - cfg.windowMs);
      var burst: seq<int> := [];
      if cfg.burstWindowMs > 0 && cfg.burstMax > 0 {
        burst := Prune(bucket.burstHits, current - cfg.burstWindowMs);
      }
      bucket := Bucket(base, burst);
      if key in buckets {
        buckets := buckets[key := bucket];
      }
      var baseOver := |base| >= cfg.max;
      var burstOver := cfg.burstWindowMs > 0 && cfg.burstMax > 0 && |burst| >= cfg.burstMax;
      if baseOver || burstOver {
        return Some(Seconds(RetryAfterMs(cfg, bucket, current)));
      }
      base := base + [current];
      if cfg.burstWindowMs > 0 && cfg.burstMax > 0 {
        burst := burst + [current];
      }
      buckets := buckets[key := Bucket(base, burst)];
      return None;
    }
  }

  // ----- runs

  datatype Call = Call(key: string, at: int)

  /** The map after a run of calls. */
  function Run(cfg: Config, calls: seq<Call>): Buckets {
    if calls == [] then map[]
    else
      var n := |calls| - 1;
      After(cfg, Run(cfg, calls[..n]), calls[n].key, calls[n].at)
  }

  /** Whether call `i` of the run was admitted. */
  predicate AdmittedAt(cfg: Config, calls: seq<Call>, i: nat)
    requires i < |calls|
  {
    Outcome(cfg, BucketFor(Run(cfg, calls[..i]), calls[i].key), calls[i].at).None?
  }

  /** Times of the admitted calls of one key, in order. */
  function History(cfg: Config, calls: seq<Call>, key: string): seq<int> {
    if calls == [] then []
    else
      var n := |calls| - 1;
      History(cfg, calls[..n], key) +
      (if calls[n].key == key && AdmittedAt(cfg, calls, n) then [calls[n].at] else [])
  }

  ghost predicate Ordered(times: seq<int>) {
    forall i, j :: 0 <= i < j < |times| ==> times[i] <= times[j]
  }

  ghost predicate Positive(times: seq<int>) {
    forall i :: 0 <= i < |times| ==> times[i] > 0
  }

  /** The clock never goes back. */
  ghost predicate Monotone(calls: seq<Call>) {
    forall i, j :: 0 <= i < j < |calls| ==> calls[i].at <= calls[j].at
  }

  /** `hits` is what is left of `history` once everything older than `cutoff` may have gone. */
  ghost predicate Tail(hits: seq<int>, history: seq<int>, cutoff: int) {
    |hits| <= |history| && hits == history[|history| - |hits|..] &&
    forall i :: 0 <= i < |history| - |hits| ==> history[i] < cutoff
  }

  lemma {:induction false} PrunedTail(hits: seq<int>, history: seq<int>, before: int, cutoff: int)
    requires Tail(hits, history, before) && before <= cutoff
    ensures Tail(Pruned(hits, cutoff), history, cutoff)
    ensures Pruned(hits, cutoff) != [] ==> Pruned(hits, cutoff)[0] >= cutoff
    decreases |hits|
  {
    if hits != [] && hits[0] < cutoff {
      var d := |history| - |hits|;
      assert history[d..][1..] == history[d + 1..];
      assert history[d] == hits[0];
      PrunedTail(hits[1..], history, cutoff, cutoff);
    }
  }

  /** More than `limit` admissions never fit in `window`. */
  ghost predicate Spaced(history: seq<int>, limit: nat, window: nat) {
    forall i :: 0 <= i && i + limit < |history| ==> history[i + limit] > history[i] + window
  }

  lemma AdmissionSpaced(hits: seq<int>, history: seq<int>, now: int, limit: nat, window: nat)
    requires Spaced(history, limit, window) && Tail(hits, history, now - window) && |hits| < limit
    ensures Spaced(history + [now], limit, window)
    ensures Tail(hits + [now], history + [now], now - window)
  {
    var next := history + [now];
    var d := |history| - |hits|;
    assert next[d..] == history[d..] + [now];
    forall i | 0 <= i && i + limit < |next| ensures next[i + limit] > next[i] + window {
      if i + limit == |history| {
        assert i < d;
      }
    }
  }

  /** What every run keeps about one key. */
  ghost predicate Kept(cfg: Config, b: Bucket, history: seq<int>, now: int) {
    && Ordered(history) && (forall i :: 0 <= i < |history| ==> history[i] <= now)
    && Tail(b.baseHits, history, now - cfg.windowMs) && |b.baseHits| <= cfg.max
    && Spaced(history, cfg.max, cfg.windowMs)
    && (cfg.BurstOn() ==>
          Tail(b.burstHits, history, now - cfg.burstWindowMs) && |b.burstHits| <= cfg.burstMax &&
          Spaced(history, cfg.burstMax, cfg.burstWindowMs))
  }

  lemma {:induction false} PrunedShrinks(hits: seq<int>, cutoff: int)
    ensures |Pruned(hits, cutoff)| <= |hits|
  {
    if hits != [] && hits[0] < cutoff {
      PrunedShrinks(hits[1..], cutoff);
    }
  }

  lemma RefreshKeeps(cfg: Config, b: Bucket, history: seq<int>, before: int, now: int)
    requires Kept(cfg, b, history, before) && before <= now
    ensures Kept(cfg, Refreshed(cfg, b, now), history, now)
  {
    hide Pruned;
    PrunedTail(b.baseHits, history, before - cfg.windowMs, now - cfg.windowMs);
    PrunedShrinks(b.baseHits, now - cfg.windowMs);
    if cfg.BurstOn() {
      PrunedTail(b.burstHits, history, before - cfg.burstWindowMs, now - cfg.burstWindowMs);
      PrunedShrinks(b.burstHits, now - cfg.burstWindowMs);
    }
  }

  lemma RecordKeeps(cfg: Config, b: Bucket, history: seq<int>, now: int)
    requires Kept(cfg, b, history, now) && Admits(cfg, b)
    ensures Kept(cfg, Recorded(cfg, b, now), history + [now], now)
  {
    AdmissionSpaced(b.baseHits, history, now, cfg.max, cfg.windowMs);
    if cfg.BurstOn() {
      AdmissionSpaced(b.burstHits, history, now, cfg.burstMax, cfg.burstWindowMs);
    }
    hide Spaced, Tail;
  }

  lemma {:induction false} RunKeeps(cfg: Config, calls: seq<Call>, key: string, now: int)
    requires Monotone(calls) && forall i :: 0 <= i < |calls| ==> calls[i].at <= now
    ensures Kept(cfg, BucketFor(Run(cfg, calls), key), History(cfg, calls, key), now)
    decreases |calls|
  {
    hide Kept, Refreshed, Admits, Recorded;
    if calls == [] {
      EmptyKept(cfg, now);
    } else {
      var n := |calls| - 1;
      var front, c := calls[..n], calls[n];
      RunKeeps(cfg, front, key, c.at);
      var b, h := BucketFor(Run(cfg, front), key), History(cfg, front, key);
      assert h + [] == h;
      if c.key == key {
        RefreshKeeps(cfg, b, h, c.at, c.at);
        if Admits(cfg, Refreshed(cfg, b, c.at)) {
          RecordKeeps(cfg, Refreshed(cfg, b, c.at), h, c.at);
        }
      }
      LaterKept(cfg, BucketFor(Run(cfg, calls), key), History(cfg, calls, key), c.at, now);
    }
  }

  lemma EmptyKept(cfg: Config, now: int)
    ensures Kept(cfg, EMPTY_BUCKET, [], now)
  {
  }

  lemma LaterKept(cfg: Config, b: Bucket, history: seq<int>, before: int, now: int)
    requires Kept(cfg, b, history, before) && before <= now
    ensures Kept(cfg, b, history, now)
  {
  }

  // ----- the guarantee, counted

  function CountIn(times: seq<int>, lo: int, hi: int): nat {
    if times == [] then 0 else (if lo <= times[0] <= hi then 1 else 0) + CountIn(times[1..], lo, hi)
  }

  lemma {:induction false} CountSplit(a: seq<int>, b: seq<int>, lo: int, hi: int)
    ensures CountIn(a + b, lo, hi) == CountIn(a, lo, hi) + CountIn(b, lo, hi)
  {
    if a == [] {
      assert a + b == b;
    } else {
      assert (a + b)[1..] == a[1..] + b;
      CountSplit(a[1..], b, lo, hi);
    }
  }

  lemma {:induction false} CountAtMost(times: seq<int>, lo: int, hi: int)
    ensures CountIn(times, lo, hi) <= |times|
    ensures (forall i :: 0 <= i < |times| ==> times[i] > hi) ==> CountIn(times, lo, hi) == 0
  {
    if times != [] {
      CountAtMost(times[1..], lo, hi);
    }
  }

  lemma {:induction false} SpacedCount(times: seq<int>, limit: nat, window: nat, lo: int, hi: int)
    requires Ordered(times) && Spaced(times, limit, window) && hi - lo <= window
    ensures CountIn(times, lo, hi) <= limit
  {
    if times != [] {
      if times[0] < lo {
        assert forall i :: 0 <= i < |times[1..]| ==> times[1..][i] == times[i + 1];
        SpacedCount(times[1..], limit, window, lo, hi);
      } else if |times| <= limit {
        CountAtMost(times, lo, hi);
      } else {
        assert times[..limit] + times[limit..] == times;
        CountSplit(times[..limit], times[limit..], lo, hi);
        CountAtMost(times[..limit], lo, hi);
        CountAtMost(times[limit..], lo, hi);
        forall i | 0 <= i < |times[limit..]| ensures times[limit..][i] > hi {
          assert times[limit..][i] == times[limit + i];
          assert times[0 + limit] > times[0] + window;
        }
      }
    }
  }

  /** No closed interval of one window ever holds more admissions of a key than its limit. */
  lemma SlidingWindow(cfg: Config, calls: seq<Call>, key: string, lo: int)
    requires Monotone(calls)
    ensures CountIn(History(cfg, calls, key), lo, lo + cfg.windowMs) <= cfg.max
    ensures cfg.burstWindowMs > 0 && cfg.burstMax > 0 ==>
              CountIn(History(cfg, calls, key), lo, lo + cfg.burstWindowMs) <= cfg.burstMax
  {
    var now := if calls == [] then 0 else calls[|calls| - 1].at;
    RunKeeps(cfg, calls, key, now);
    hide History, Run;
    SpacedCount(History(cfg, calls, key), cfg.max, cfg.windowMs, lo, lo + cfg.windowMs);
    if cfg.BurstOn() {
      SpacedCount(History(cfg, calls, key), cfg.burstMax, cfg.burstWindowMs, lo, lo + cfg.burstWindowMs);
    }
  }

  // ----- verdict and wait, from the admissions alone

  lemma {:induction false} PrunedFrom(hits: seq<int>, cutoff: int)
    requires Ordered(hits)
    ensures forall i :: 0 <= i < |Pruned(hits, cutoff)| ==> Pruned(hits, cutoff)[i] >= cutoff
    ensures Ordered(Pruned(hits, cutoff))
  {
    if hits != [] && hits[0] < cutoff {
      assert forall i :: 0 <= i < |hits[1..]| ==> hits[1..][i] == hits[i + 1];
      PrunedFrom(hits[1..], cutoff);
    }
  }

  lemma {:induction false} CountAll(times: seq<int>, lo: int, hi: int)
    ensures (forall i :: 0 <= i < |times| ==> lo <= times[i] <= hi) ==> CountIn(times, lo, hi) == |times|
    ensures (forall i :: 0 <= i < |times| ==> times[i] < lo) ==> CountIn(times, lo, hi) == 0
  {
    if times != [] {
      CountAll(times[1..], lo, hi);
    }
  }

  /** What is left of a history after pruning is what lies in the window. */
  lemma TailCounted(hits: seq<int>, history: seq<int>, before: int, window: nat, now: int)
    requires Tail(hits, history, before) && before <= now - window && Ordered(history)
    requires forall i :: 0 <= i < |history| ==> history[i] <= now
    ensures var kept := Pruned(hits, now - window);
            && |kept| == CountIn(history, now - window, now) && Tail(kept, history, now - window)
            && (forall i :: 0 <= i < |kept| ==> now - window <= kept[i] <= now) && Ordered(kept)
  {
    hide Pruned, CountIn;
    PrunedTail(hits, history, before, now - window);
    TailOrdered(hits, history, before);
    PrunedFrom(hits, now - window);
    CountTail(Pruned(hits, now - window), history, now - window, now);
  }

  lemma TailOrdered(hits: seq<int>, history: seq<int>, before: int)
    requires Tail(hits, history, before) && Ordered(history)
    ensures Ordered(hits) && forall i :: 0 <= i < |hits| ==> hits[i] in history
  {
    var d := |history| - |hits|;
    assert forall i :: 0 <= i < |hits| ==> hits[i] == history[d + i];
  }

  lemma CountTail(kept: seq<int>, history: seq<int>, lo: int, hi: int)
    requires Tail(kept, history, lo) && forall i :: 0 <= i < |kept| ==> lo <= kept[i]
    requires forall i :: 0 <= i < |history| ==> history[i] <= hi
    ensures |kept| == CountIn(history, lo, hi) && forall i :: 0 <= i < |kept| ==> kept[i] <= hi
  {
    hide CountIn;
    var d := |history| - |kept|;
    assert history == history[..d] + history[d..];
    assert forall i :: 0 <= i < |kept| ==> kept[i] == history[d + i];
    CountSplit(history[..d], history[d..], lo, hi);
    CountAll(history[..d], lo, hi);
    CountAll(kept, lo, hi);
  }

  lemma KeptVerdict(cfg: Config, b: Bucket, history: seq<int>, now: int)
    requires Kept(cfg, b, history, now)
    ensures Outcome(cfg, b, now).None?
       <==> && CountIn(history, now - cfg.windowMs, now) < cfg.max
            && (cfg.burstWindowMs > 0 && cfg.burstMax > 0 ==>
                  CountIn(history, now - cfg.burstWindowMs, now) < cfg.burstMax)
  {
    hide CountIn, Pruned, Spaced, Tail, RetryAfterMs, Ordered;
    TailCounted(b.baseHits, history, now - cfg.windowMs, cfg.windowMs, now);
    if cfg.BurstOn() {
      TailCounted(b.burstHits, history, now - cfg.burstWindowMs, cfg.burstWindowMs, now);
    }
  }

  /** A request is admitted exactly when fewer than the limit were admitted within each window in force. */
  lemma VerdictExact(cfg: Config, calls: seq<Call>, key: string, now: int)
    requires Monotone(calls) && forall i :: 0 <= i < |calls| ==> calls[i].at <= now
    ensures Outcome(cfg, BucketFor(Run(cfg, calls), key), now).None?
       <==> && CountIn(History(cfg, calls, key), now - cfg.windowMs, now) < cfg.max
            && (cfg.burstWindowMs > 0 && cfg.burstMax > 0 ==>
                  CountIn(History(cfg, calls, key), now - cfg.burstWindowMs, now) < cfg.burstMax)
  {
    RunKeeps(cfg, calls, key, now);
    KeptVerdict(cfg, BucketFor(Run(cfg, calls), key), History(cfg, calls, key), now);
  }

  /** `t` is the oldest of these times within the window. */
  ghost predicate OldestIn(times: seq<int>, window: nat, now: int, t: int) {
    t in times && now - window <= t && forall u <- times :: now - window <= u ==> t <= u
  }

  /** Until the oldest admission in the window has left it; the whole window if there is none. */
  ghost predicate WindowWait(times: seq<int>, window: nat, now: int, wait: nat) {
    if forall t <- times :: t < now - window then wait == window
    else exists t :: OldestIn(times, window, now, t) && wait == t + window - now
  }

  lemma WindowWaitIs(hits: seq<int>, history: seq<int>, window: nat, now: int)
    requires Tail(hits, history, now - window) && Positive(history) && Ordered(hits)
    requires forall i :: 0 <= i < |hits| ==> now - window <= hits[i] <= now
    ensures WindowWait(history, window, now, AtLeastZero(window - (now - Oldest(hits, now))))
  {
    var d := |history| - |hits|;
    if hits == [] {
      assert forall t <- history :: t < now - window;
    } else {
      assert hits[0] == history[d] && hits[0] in history;
      forall u | u in history && now - window <= u ensures hits[0] <= u {
        var i :| 0 <= i < |history| && history[i] == u;
        assert i >= d && u == hits[i - d];
      }
      assert OldestIn(history, window, now, hits[0]);
    }
  }

  lemma KeptWait(cfg: Config, b: Bucket, history: seq<int>, now: int)
    requires Kept(cfg, b, history, now) && Positive(history)
    ensures WindowWait(history, cfg.windowMs, now, BaseWait(cfg, Refreshed(cfg, b, now), now))
    ensures var burst := BurstWait(cfg, Refreshed(cfg, b, now), now);
            if cfg.burstWindowMs > 0 && cfg.burstMax > 0
            then WindowWait(history, cfg.burstWindowMs, now, burst) else burst == 0
  {
    hide CountIn, Pruned, Spaced, Tail, Ordered, Positive, WindowWait, Oldest, AtLeastZero;
    var r := Refreshed(cfg, b, now);
    TailCounted(b.baseHits, history, now - cfg.windowMs, cfg.windowMs, now);
    WindowWaitIs(r.baseHits, history, cfg.windowMs, now);
    if cfg.BurstOn() {
      TailCounted(b.burstHits, history, now - cfg.burstWindowMs, cfg.burstWindowMs, now);
      WindowWaitIs(r.burstHits, history, cfg.burstWindowMs, now);
    }
  }

  /** A refusal's wait is the longer of the two windows' waits, each read off the admissions. */
  lemma WaitExact(cfg: Config, calls: seq<Call>, key: string, now: int) returns (base: nat, burst: nat)
    requires Monotone(calls) && forall i :: 0 <= i < |calls| ==> calls[i].at <= now
    requires Positive(History(cfg, calls, key)) && Outcome(cfg, BucketFor(Run(cfg, calls), key), now).Some?
    ensures WindowWait(History(cfg, calls, key), cfg.windowMs, now, base)
    ensures if cfg.burstWindowMs > 0 && cfg.burstMax > 0
            then WindowWait(History(cfg, calls, key), cfg.burstWindowMs, now, burst) else burst == 0
    ensures Outcome(cfg, BucketFor(Run(cfg, calls), key), now) == Some(if base < burst then burst else base)
  {
    RunKeeps(cfg, calls, key, now);
    var b, h := BucketFor(Run(cfg, calls), key), History(cfg, calls, key);
    hide History, Run, Pruned, WindowWait, Kept, Refreshed, Admits, Positive, BurstWait, BaseWait;
    base, burst := BaseWait(cfg, Refreshed(cfg, b, now), now), BurstWait(cfg, Refreshed(cfg, b, now), now);
    KeptWait(cfg, b, h, now);
  }

  /** What one request leaves in the map: a new key only if admitted, and nothing older than its window. */
  lemma AfterExact(cfg: Config, buckets: Buckets, key: string, now: int)
    ensures var after := After(cfg, buckets, key, now);
            && (key in after <==> key in buckets || Outcome(cfg, BucketFor(buckets, key), now).None?)
            && (forall other :: other != key ==>
                  (other in after <==> other in buckets) && (other in after ==> after[other] == buckets[other]))
            && (key in after ==>
                  && (after[key].baseHits != [] ==> after[key].baseHits[0] >= now - cfg.windowMs)
                  && (after[key].burstHits != [] ==>
                        cfg.burstWindowMs > 0 && cfg.burstMax > 0 &&
                        after[key].burstHits[0] >= now - cfg.burstWindowMs))
  {
    var b := BucketFor(buckets, key);
    PrunedHead(b.baseHits, now - cfg.windowMs);
    PrunedHead(b.burstHits, now - cfg.burstWindowMs);
  }

  // ----- keys do not affect each other

  function OfKey(calls: seq<Call>, key: string): seq<Call> {
    if calls == [] then []
    else OfKey(calls[..|calls| - 1], key) + if calls[|calls| - 1].key == key then [calls[|calls| - 1]] else []
  }

  lemma OneMore(cfg: Config, calls: seq<Call>, c: Call, key: string)
    ensures Run(cfg, calls + [c]) == After(cfg, Run(cfg, calls), c.key, c.at)
    ensures History(cfg, calls + [c], key)
         == History(cfg, calls, key) +
            (if c.key == key && Outcome(cfg, BucketFor(Run(cfg, calls), key), c.at).None? then [c.at] else [])
  {
    assert (calls + [c])[..|calls|] == calls;
  }

  /** A key's bucket and admissions are the same with every other key's calls left out. */
  lemma {:induction false} OtherKeysIrrelevant(cfg: Config, calls: seq<Call>, key: string)
    ensures key in Run(cfg, calls) <==> key in Run(cfg, OfKey(calls, key))
    ensures BucketFor(Run(cfg, calls), key) == BucketFor(Run(cfg, OfKey(calls, key)), key)
    ensures History(cfg, calls, key) == History(cfg, OfKey(calls, key), key)
    decreases |calls|
  {
    if calls != [] {
      var front, c := calls[..|calls| - 1], calls[|calls| - 1];
      var own := OfKey(front, key);
      assert calls == front + [c] && OfKey(calls, key) == if c.key == key then own + [c] else own;
      hide Run, History, OfKey, Outcome, Refreshed, Admits, Recorded;
      OtherKeysIrrelevant(cfg, front, key);
      OneMore(cfg, front, c, key);
      OneMore(cfg, own, c, key);
    }
  }

  // ----- the waiting time is honest

  lemma {:induction false} PruneTwice(hits: seq<int>, a: int, b: int)
    requires a <= b
    ensures Pruned(Pruned(hits, a), b) == Pruned(hits, b)
  {
    if hits != [] && hits[0] < a {
      PruneTwice(hits[1..], a, b);
    }
  }

  /** Refreshing early makes no difference to a later refresh. */
  lemma RefreshTwice(cfg: Config, b: Bucket, early: int, late: int)
    requires early <= late
    ensures Refreshed(cfg, Refreshed(cfg, b, early), late) == Refreshed(cfg, b, late)
  {
    PruneTwice(b.baseHits, early - cfg.windowMs, late - cfg.windowMs);
    PruneTwice(b.burstHits, early - cfg.burstWindowMs, late - cfg.burstWindowMs);
  }

  /** The calls of `key` in the run are all refused. */
  ghost predicate AllRefused(cfg: Config, before: Buckets, calls: seq<Call>, key: string)
    decreases |calls|
  {
    calls == [] ||
    ((calls[0].key == key ==> Outcome(cfg, BucketFor(before, key), calls[0].at).Some?) &&
     AllRefused(cfg, After(cfg, before, calls[0].key, calls[0].at), calls[1..], key))
  }

  function RunFrom(cfg: Config, before: Buckets, calls: seq<Call>): Buckets
    decreases |calls|
  {
    if calls == [] then before else RunFrom(cfg, After(cfg, before, calls[0].key, calls[0].at), calls[1..])
  }

  /** It is the rest of a run. */
  lemma {:induction false} RunContinues(cfg: Config, calls: seq<Call>, more: seq<Call>)
    ensures RunFrom(cfg, Run(cfg, calls), more) == Run(cfg, calls + more)
    decreases |more|
  {
    if more == [] {
      assert calls + more == calls;
    } else {
      assert (calls + [more[0]])[..|calls|] == calls;
      assert calls + [more[0]] + more[1..] == calls + more;
      RunContinues(cfg, calls + [more[0]], more[1..]);
    }
  }

  /** Refusals leave nothing behind but pruning. */
  lemma {:induction false} RefusalsOnlyPrune(cfg: Config, before: Buckets, calls: seq<Call>, key: string, late: int)
    requires AllRefused(cfg, before, calls, key)
    requires forall i :: 0 <= i < |calls| ==> calls[i].at <= late
    ensures Refreshed(cfg, BucketFor(RunFrom(cfg, before, calls), key), late)
         == Refreshed(cfg, BucketFor(before, key), late)
    decreases |calls|
  {
    hide Refreshed, Admits, Recorded;
    if calls != [] {
      var c := calls[0];
      RefusalsOnlyPrune(cfg, After(cfg, before, c.key, c.at), calls[1..], key, late);
      if c.key == key {
        RefreshTwice(cfg, BucketFor(before, key), c.at, late);
      }
    }
  }

  lemma WindowMakesRoom(hits: seq<int>, early: int, late: int, window: nat, limit: nat)
    requires |hits| <= limit && 0 < limit && (hits != [] ==> hits[0] > 0)
    requires late > early + AtLeastZero(window - (early - Oldest(hits, early)))
    ensures |Pruned(hits, late - window)| < limit
  {
    if |hits| == limit {
      PrunedShrinks(hits[1..], late - window);
    } else {
      PrunedShrinks(hits, late - window);
    }
  }

  /** Past the reported waiting time every window in force has room. */
  lemma WaitMakesRoom(cfg: Config, r: Bucket, history: seq<int>, early: int, late: int)
    requires Kept(cfg, r, history, early) && Positive(history) && cfg.max >= 1
    requires late > early + RetryAfterMs(cfg, r, early)
    ensures Admits(cfg, Refreshed(cfg, r, late))
  {
    hide Pruned, Spaced;
    assert |Pruned(r.baseHits, late - cfg.windowMs)| < cfg.max by {
      WindowMakesRoom(r.baseHits, early, late, cfg.windowMs, cfg.max);
    }
    if cfg.BurstOn() {
      WindowMakesRoom(r.burstHits, early, late, cfg.burstWindowMs, cfg.burstMax);
    }
  }

  /** The first request of the refused run leaves the same bucket as the refresh, as far as later refreshes go. */
  lemma RefusalOnlyPrunes(cfg: Config, before: Buckets, key: string, early: int, late: int)
    requires early <= late && Outcome(cfg, BucketFor(before, key), early).Some?
    ensures Refreshed(cfg, BucketFor(After(cfg, before, key, early), key), late)
         == Refreshed(cfg, BucketFor(before, key), late)
  {
    RefreshTwice(cfg, BucketFor(before, key), early, late);
    hide Refreshed, Admits, Recorded;
  }

  // ----- coming back exactly when told to

  /** A full window whose own wait is the whole wait. */
  predicate Binds(cfg: Config, r: Bucket, now: int, wait: nat) {
    (|r.baseHits| >= cfg.max && BaseWait(cfg, r, now) == wait) ||
    (cfg.BurstOn() && |r.burstHits| >= cfg.burstMax && BurstWait(cfg, r, now) == wait)
  }

  lemma {:induction false} PrunedHead(hits: seq<int>, cutoff: int)
    ensures Pruned(hits, cutoff) != [] ==> Pruned(hits, cutoff)[0] >= cutoff
  {
    if hits != [] && hits[0] < cutoff {
      PrunedHead(hits[1..], cutoff);
    }
  }

  /** From its own wait on, a window is still full only at the very end of that wait. */
  lemma WindowAtWait(hits: seq<int>, early: int, late: int, window: nat, limit: nat)
    requires |hits| <= limit && 0 < limit && (hits != [] ==> hits[0] > 0 && hits[0] >= early - window)
    requires late >= early + AtLeastZero(window - (early - Oldest(hits, early)))
    ensures |Pruned(hits, late - window)| >= limit
       <==> |hits| >= limit && late == early + AtLeastZero(window - (early - Oldest(hits, early)))
  {
    if hits != [] { PrunedShrinks(hits[1..], late - window); }
    PrunedShrinks(hits, late - window);
  }

  lemma WaitDecides(cfg: Config, b: Bucket, history: seq<int>, early: int)
    requires var r := Refreshed(cfg, b, early);
             Kept(cfg, r, history, early) && Positive(history) && cfg.max >= 1 && !Admits(cfg, r)
    ensures var r := Refreshed(cfg, b, early);
            var wait := RetryAfterMs(cfg, r, early);
            Admits(cfg, Refreshed(cfg, r, early + wait)) <==> !Binds(cfg, r, early, wait)
  {
    hide Pruned, Spaced;
    var r := Refreshed(cfg, b, early);
    var late := early + RetryAfterMs(cfg, r, early);
    PrunedHead(b.baseHits, early - cfg.windowMs);
    HeadPositive(r.baseHits, history, early - cfg.windowMs);
    WindowAtWait(r.baseHits, early, late, cfg.windowMs, cfg.max);
    if cfg.BurstOn() {
      PrunedHead(b.burstHits, early - cfg.burstWindowMs);
      HeadPositive(r.burstHits, history, early - cfg.burstWindowMs);
      WindowAtWait(r.burstHits, early, late, cfg.burstWindowMs, cfg.burstMax);
    }
  }

  lemma HeadPositive(hits: seq<int>, history: seq<int>, cutoff: int)
    requires Tail(hits, history, cutoff) && Positive(history)
    ensures hits != [] ==> hits[0] > 0
  {
  }

  /** The circumstances of a retry: a refusal at `early`, no admission of the key since, and no later call. */
  ghost predicate Retrying(cfg: Config, calls: seq<Call>, key: string, early: int, between: seq<Call>, late: int) {
    && Monotone(calls) && Positive(History(cfg, calls, key))
    && (forall i :: 0 <= i < |calls| ==> calls[i].at <= early)
    && (forall i :: 0 <= i < |between| ==> early <= between[i].at <= late)
    && Outcome(cfg, BucketFor(Run(cfg, calls), key), early).Some?
    && AllRefused(cfg, After(cfg, Run(cfg, calls), key, early), between, key)
  }

  /** What the retry at `late` gets. */
  function RetryOutcome(cfg: Config, calls: seq<Call>, key: string, early: int, between: seq<Call>, late: int)
    : Option<nat>
  {
    Outcome(cfg, BucketFor(RunFrom(cfg, After(cfg, Run(cfg, calls), key, early), between), key), late)
  }

  /** With a limit of zero nothing is ever admitted. */
  lemma ZeroAdmitsNothing(cfg: Config, b: Bucket, now: int)
    requires cfg.max == 0
    ensures Outcome(cfg, b, now).Some?
  {
  }

  /**
   A client refused at `early` that comes back strictly later than the wait, with no admission of its key in between,
   is admitted, unless the limit is zero.
   */
  lemma RetryIsHonest(cfg: Config, calls: seq<Call>, key: string, early: int, between: seq<Call>, late: int)
    requires Retrying(cfg, calls, key, early, between, late)
    requires late > early + Outcome(cfg, BucketFor(Run(cfg, calls), key), early).value
    ensures RetryOutcome(cfg, calls, key, early, between, late).None? <==> cfg.max >= 1
  {
    hide Run, History, AllRefused, RunFrom, Pruned, Refreshed, Kept, Admits, After, BucketFor, RetryAfterMs, Positive;
    var start := Run(cfg, calls);
    if cfg.max == 0 {
      ZeroAdmitsNothing(cfg, BucketFor(RunFrom(cfg, After(cfg, start, key, early), between), key), late);
      return;
    }
    var b, h := BucketFor(start, key), History(cfg, calls, key);
    RunKeeps(cfg, calls, key, early);
    RefreshKeeps(cfg, b, h, early, early);
    WaitMakesRoom(cfg, Refreshed(cfg, b, early), h, early, late);
    RefreshTwice(cfg, b, early, late);
    RefusalOnlyPrunes(cfg, start, key, early, late);
    RefusalsOnlyPrune(cfg, After(cfg, start, key, early), between, key, late);
  }

  /**
   Exactly at the end of the wait, the retry is refused if and only if a full window's own wait is all of it or the
   limit is zero.
   */
  lemma ExactRetryDecided(cfg: Config, calls: seq<Call>, key: string, early: int, between: seq<Call>)
    requires var wait := RetryAfterMs(cfg, Refreshed(cfg, BucketFor(Run(cfg, calls), key), early), early);
             Retrying(cfg, calls, key, early, between, early + wait)
    ensures var r := Refreshed(cfg, BucketFor(Run(cfg, calls), key), early);
            var wait := RetryAfterMs(cfg, r, early);
            RetryOutcome(cfg, calls, key, early, between, early + wait).Some?
            <==> cfg.max == 0 || Binds(cfg, r, early, wait)
  {
    hide Run, History, AllRefused, RunFrom, Pruned, Refreshed, Kept, Admits, After, BucketFor, RetryAfterMs, Positive,
         Binds;
    var start := Run(cfg, calls);
    var b, h := BucketFor(start, key), History(cfg, calls, key);
    var late := early + RetryAfterMs(cfg, Refreshed(cfg, b, early), early);
    if cfg.max == 0 {
      ZeroAdmitsNothing(cfg, BucketFor(RunFrom(cfg, After(cfg, start, key, early), between), key), late);
      return;
    }
    RunKeeps(cfg, calls, key, early);
    RefreshKeeps(cfg, b, h, early, early);
    WaitDecides(cfg, b, h, early);
    RefreshTwice(cfg, b, early, late);
    RefusalOnlyPrunes(cfg, start, key, early, late);
    RefusalsOnlyPrune(cfg, After(cfg, start, key, early), between, key, late);
  }

  /**
   A client that comes back exactly the seconds it was told later is refused again if and only if the wait is a whole
   number of seconds and a full window's own wait is all of it, or the limit is zero.
   */
  lemma ToldRetryDecided(cfg: Config, calls: seq<Call>, key: string, early: int, between: seq<Call>)
    requires var wait := RetryAfterMs(cfg, Refreshed(cfg, BucketFor(Run(cfg, calls), key), early), early);
             Retrying(cfg, calls, key, early, between, early + 1000 * Seconds(wait))
    ensures var r := Refreshed(cfg, BucketFor(Run(cfg, calls), key), early);
            var wait := RetryAfterMs(cfg, r, early);
            var late := early + 1000 * Seconds(wait);
            RetryOutcome(cfg, calls, key, early, between, late).Some?
            <==> cfg.max == 0 || (wait % 1000 == 0 && Binds(cfg, r, early, wait))
  {
    hide Run, History, AllRefused, RunFrom, Pruned, Refreshed, Admits, After, BucketFor, RetryAfterMs, Positive, Binds,
         Monotone;
    var wait := RetryAfterMs(cfg, Refreshed(cfg, BucketFor(Run(cfg, calls), key), early), early);
    if wait % 1000 == 0 {
      assert 1000 * Seconds(wait) == wait;
      ExactRetryDecided(cfg, calls, key, early, between);
    } else {
      assert 1000 * Seconds(wait) > wait;
      RetryIsHonest(cfg, calls, key, early, between, early + 1000 * Seconds(wait));
    }
  }

  const ONE_A_MINUTE := Config(60000, 1, 0, 0)

  /** One client refused again after the 59 seconds it was told, and one admitted after its 60. */
  lemma ToldRetryInputs()
    ensures var once := After(ONE_A_MINUTE, map[], "a", 1);
            && Told(Outcome(ONE_A_MINUTE, BucketFor(once, "a"), 1001)) == Some(59)
            && Outcome(ONE_A_MINUTE, BucketFor(After(ONE_A_MINUTE, once, "a", 1001), "a"), 60001).Some?
            && Told(Outcome(ONE_A_MINUTE, BucketFor(once, "a"), 2)) == Some(60)
            && Outcome(ONE_A_MINUTE, BucketFor(After(ONE_A_MINUTE, once, "a", 2), "a"), 60002).None?
  {
    var once := After(ONE_A_MINUTE, map[], "a", 1);
    assert once["a"] == Bucket([1], []);
    assert [1][1..] == [];
  }

  /** With both windows on, the wait can be that of a window which is not full; its end is then soon enough. */
  lemma LooseWaitInput()
    ensures var cfg := Config(10, 1, 100, 5);
            var once := After(cfg, map[], "a", 50);
            && Outcome(cfg, BucketFor(once, "a"), 51) == Some(99)
            && Outcome(cfg, BucketFor(After(cfg, once, "a", 51), "a"), 150).None?
  {
    var once := After(Config(10, 1, 100, 5), map[], "a", 50);
    assert once["a"] == Bucket([50], [50]);
    assert [50][1..] == [];
  }
}
