/** The per-address limiter of the token exchange: a fixed window per key. */
module RateLimit {
  import opened Wrappers

  // Times are in nanoseconds.
  const SECOND: int := 1_000_000_000

  datatype Entry = Entry(count: int, windowEnd: int)

  type entries = map<string, Entry>

  // One call: the window for the key is opened, used up further, or full.
  function AllowEntry(rps: int, e: Option<Entry>, now: int): (bool, Entry) {
    match e
    case None => (true, Entry(1, now + SECOND))
    case Some(w) =>
      if now > w.windowEnd then (true, Entry(1, now + SECOND))
      else if w.count >= rps then (false, w)
      else (true, Entry(w.count + 1, w.windowEnd))
  }

  function Find(m: entries, key: string): Option<Entry> {
    if key in m then Some(m[key]) else None
  }

  class RateLimiter {
    const rps: int
    var windows: entries

    constructor (rps0: int)
      ensures rps == if rps0 < 1 then 1 else rps0
      ensures windows == map[]
    {
      rps := if rps0 < 1 then 1 else rps0;
      windows := map[];
    }

    method Allow(key: string, now: int) returns (ok: bool)
      modifies this`windows
      ensures var (allowed, e) := AllowEntry(rps, Find(old(windows), key), now);
        ok == allowed && windows == old(windows)[key := e]
    {
      if key !in windows || now > windows[key].windowEnd {
        windows := windows[key := Entry(1, now + SECOND)];
        return true;
      }
      if windows[key].count >= rps {
        assert windows[key := windows[key]] == windows;
        return false;
      }
      windows := windows[key := Entry(windows[key].count + 1, windows[key].windowEnd)];
      return true;
    }
  }

  // ---- Whole runs ----

  datatype Call = Call(key: string, now: int)

  function Last(calls: seq<Call>): Call
    requires calls != []
  {
    calls[|calls| - 1]
  }

  function Init(calls: seq<Call>): seq<Call>
    requires calls != []
  {
    calls[..|calls| - 1]
  }

  // The windows after a run of a new limiter.
  function After(rps: int, calls: seq<Call>): entries {
    if calls == [] then map[]
    else
      var m, c := After(rps, Init(calls)), Last(calls);
      m[c.key := AllowEntry(rps, Find(m, c.key), c.now).1]
  }

  // Whether the last call of a run is allowed.
  predicate IsAllowed(rps: int, calls: seq<Call>)
    requires calls != []
  {
    AllowEntry(rps, Find(After(rps, Init(calls)), Last(calls).key), Last(calls).now).0
  }

  // The number of calls for a key that are allowed at times from..to.
  function Allowed(rps: int, calls: seq<Call>, key: string, from: int, to: int): nat {
    if calls == [] then 0
    else
      Allowed(rps, Init(calls), key, from, to)
      + (if Last(calls).key == key && from <= Last(calls).now <= to && IsAllowed(rps, calls) then 1 else 0)
  }

  ghost predicate InOrder(calls: seq<Call>) {
    forall i, j :: 0 <= i <= j < |calls| ==> calls[i].now <= calls[j].now
  }

  // What a window that opens the given time after the start of the interval may find
  // already allowed.  Windows open more than a second apart, so that each further
  // second and a nanosecond makes room for one more full window; one window can be open
  // already when the interval begins, short of the call that opened it.
  function Before(rps: int, since: int): int
    requires since >= 0 && rps >= 1
  {
    var q, r := since / (SECOND + 1), since % (SECOND + 1);
    if r == 0 then q * rps else (q + 1) * rps - 1
  }

  // The most calls an interval of the given length can let through.
  function MostAllowed(rps: int, length: int): int
    requires length >= 0 && rps >= 1
  {
    Before(rps, length) + rps
  }

  lemma BeforeGrows(rps: int, a: int, b: int)
    requires rps >= 1 && 0 <= a <= b
    ensures 0 <= Before(rps, a) <= Before(rps, b)
  {
    var m := SECOND + 1;
    var qa, qb := a / m, b / m;
    assert qa <= qb;
    MulMonotone(qa, qb, rps);
    if qa < qb {
      MulMonotone(qa + 1, qb, rps);
      assert (qa + 1) * rps == qa * rps + rps;
    }
    assert (qb + 1) * rps == qb * rps + rps;
    assert (qa + 1) * rps == qa * rps + rps;
    MulMonotone(0, qa, rps);
  }

  lemma MulMonotone(a: int, b: int, c: int)
    requires a <= b && c >= 0
    ensures a * c <= b * c
  {
  }

  lemma BeforeNextWindow(rps: int, a: int, b: int)
    requires rps >= 1 && 0 <= a && a + SECOND + 1 <= b
    ensures Before(rps, a) + rps <= Before(rps, b)
  {
    var m := SECOND + 1;
    assert (a + m) / m == a / m + 1 && (a + m) % m == a % m;
    assert (a / m + 1) * rps == a / m * rps + rps;
    assert (a / m + 1 + 1) * rps == (a / m + 1) * rps + rps;
    BeforeGrows(rps, a + m, b);
  }

  lemma BeforeAtStart(rps: int)
    requires rps >= 1
    ensures Before(rps, 0) == 0 && Before(rps, 1) == rps - 1
  {
    assert 1 / (SECOND + 1) == 0 && 1 % (SECOND + 1) == 1;
  }

  // What a run leaves behind for a key, measured against an interval.
  ghost predicate Inv(rps: int, e: Option<Entry>, allowed: nat, from: int, to: int, latest: Option<int>)
    requires rps >= 1 && from <= to
  {
    match e
    case None => allowed == 0
    case Some(w) =>
      var begun := w.windowEnd - SECOND;
      && 1 <= w.count <= rps
      && (latest.Some? ==> begun <= latest.value) && latest.Some?
      && (w.windowEnd < from ==> allowed == 0)
      && (begun < from <= w.windowEnd ==> allowed <= w.count - 1)
      && (from <= begun ==> allowed <= Before(rps, begun - from) + w.count)
      && allowed <= MostAllowed(rps, to - from)
  }

  lemma CallKeepsInv(rps: int, e: Option<Entry>, allowed: nat, from: int, to: int, latest: Option<int>, now: int)
    requires rps >= 1 && from <= to
    requires Inv(rps, e, allowed, from, to, latest)
    requires latest.Some? ==> latest.value <= now
    ensures var (ok, next) := AllowEntry(rps, e, now);
      Inv(rps, Some(next), allowed + (if ok && from <= now <= to then 1 else 0), from, to, Some(now))
  {
    hide Before;
    BeforeAtStart(rps);
    BeforeGrows(rps, 0, to - from);
    var (ok, next) := AllowEntry(rps, e, now);
    if ok && from <= now {
      if e.None? || now > e.value.windowEnd {
        BeforeGrows(rps, 0, now - from);
        if e.Some? && from <= e.value.windowEnd {
          var begun := e.value.windowEnd - SECOND;
          if from <= begun {
            BeforeNextWindow(rps, begun - from, now - from);
          } else {
            BeforeGrows(rps, 1, now - from);
          }
        }
        if now <= to { BeforeGrows(rps, now - from, to - from); }
      } else {
        var begun := e.value.windowEnd - SECOND;
        if from <= begun && now <= to { BeforeGrows(rps, begun - from, to - from); }
      }
    }
  }

  function LatestOf(calls: seq<Call>): Option<int> {
    if calls == [] then None else Some(Last(calls).now)
  }

  lemma {:induction false} RunKeepsInv(rps: int, calls: seq<Call>, key: string, from: int, to: int)
    requires rps >= 1 && from <= to && InOrder(calls)
    ensures Inv(rps, Find(After(rps, calls), key), Allowed(rps, calls, key, from, to), from, to, LatestOf(calls))
    decreases |calls|
  {
    if calls != [] {
      hide Inv, AllowEntry;
      RunKeepsInv(rps, Init(calls), key, from, to);
      var e := Find(After(rps, Init(calls)), key);
      var n := Allowed(rps, Init(calls), key, from, to);
      if |calls| > 1 { assert calls[|calls| - 2].now <= calls[|calls| - 1].now; }
      if Last(calls).key == key {
        CallKeepsInv(rps, e, n, from, to, LatestOf(Init(calls)), Last(calls).now);
      } else {
        LaterKeepsInv(rps, e, n, from, to, LatestOf(Init(calls)), Last(calls).now);
      }
    }
  }

  lemma LaterKeepsInv(rps: int, e: Option<Entry>, allowed: nat, from: int, to: int, latest: Option<int>, now: int)
    requires rps >= 1 && from <= to
    requires Inv(rps, e, allowed, from, to, latest) && (latest.Some? ==> latest.value <= now)
    ensures Inv(rps, e, allowed, from, to, Some(now))
  {
  }

  // Over every run, no key gets more than this through in any interval.
  lemma RateBound(rps: int, calls: seq<Call>, key: string, from: int, to: int)
    requires rps >= 1 && from <= to && InOrder(calls)
    ensures Allowed(rps, calls, key, from, to) <= MostAllowed(rps, to - from)
  {
    RunKeepsInv(rps, calls, key, from, to);
    BeforeGrows(rps, 0, to - from);
  }

  // In seconds: at most (L + 1) * rps in L whole seconds, and one less when L > 0.
  lemma RateBoundInSeconds(rps: int, calls: seq<Call>, key: string, from: int, seconds: nat)
    requires rps >= 1 && InOrder(calls)
    ensures Allowed(rps, calls, key, from, from + seconds * SECOND)
         <= (seconds + 1) * rps - (if seconds > 0 then 1 else 0)
  {
    RateBound(rps, calls, key, from, from + seconds * SECOND);
    if seconds > 0 {
      var q := seconds * SECOND / (SECOND + 1);
      assert q + 1 <= seconds;
      MulMonotone(q + 1, seconds, rps);
      assert (q + 1) * rps == q * rps + rps;
      assert (seconds + 1) * rps == seconds * rps + rps;
    } else {
      BeforeAtStart(rps);
    }
  }

  // ---- The bound is reached ----

  function Burst(key: string, now: int, n: nat): seq<Call> {
    seq(n, i => Call(key, now))
  }

  // A burst into a window that is open, or as the first call opens one.
  lemma {:induction false} BurstAllowed(rps: int, calls: seq<Call>, key: string, now: int, n: nat, from: int, to: int)
    requires rps >= 1 && from <= now <= to
    requires InOrder(calls) && (calls != [] ==> Last(calls).now <= now)
    requires var e := Find(After(rps, calls), key);
      if e.Some? && now <= e.value.windowEnd then e.value.count + n <= rps && e.value.count >= 0 else 0 < n <= rps
    ensures var e, run := Find(After(rps, calls), key), calls + Burst(key, now, n);
      && InOrder(run) && (run != [] ==> Last(run).now <= now) && (n > 0 ==> run != [])
      && Allowed(rps, run, key, from, to) == Allowed(rps, calls, key, from, to) + n
      && Find(After(rps, run), key)
         == if e.Some? && now <= e.value.windowEnd then Some(Entry(e.value.count + n, e.value.windowEnd))
            else Some(Entry(n, now + SECOND))
    decreases n
  {
    hide After, Allowed, InOrder, IsAllowed;
    if n == 0 {
      assert calls + Burst(key, now, 0) == calls;
    } else if n == 1 {
      assert Burst(key, now, 1) == [Call(key, now)];
      OneMoreCall(rps, calls, key, now, from, to);
    } else {
      BurstAllowed(rps, calls, key, now, n - 1, from, to);
      var before := calls + Burst(key, now, n - 1);
      OneMoreCall(rps, before, key, now, from, to);
      assert before + [Call(key, now)] == calls + Burst(key, now, n);
    }
  }

  lemma OneMoreCall(rps: int, calls: seq<Call>, key: string, now: int, from: int, to: int)
    requires InOrder(calls) && (calls != [] ==> Last(calls).now <= now)
    ensures var (ok, next) := AllowEntry(rps, Find(After(rps, calls), key), now);
      var run := calls + [Call(key, now)];
      && InOrder(run) && Last(run).now == now
      && Allowed(rps, run, key, from, to)
         == Allowed(rps, calls, key, from, to) + (if ok && from <= now <= to then 1 else 0)
      && Find(After(rps, run), key) == Some(next)
  {
    var run := calls + [Call(key, now)];
    assert Init(run) == calls && Last(run) == Call(key, now);
  }

  // When window n opens, each as early as the one before allows.
  function Opening(first: int, n: nat): int {
    first + n * (SECOND + 1)
  }

  lemma OpeningStep(first: int, n: nat)
    ensures Opening(first, 0) == first && first <= Opening(first, n)
    ensures n > 0 ==> Opening(first, n) == Opening(first, n - 1) + SECOND + 1
  {
    MulMonotone(0, n, SECOND + 1);
    if n > 0 {
      assert n * (SECOND + 1) == (n - 1) * (SECOND + 1) + (SECOND + 1);
    }
  }

  // n + 1 full windows.
  function Windows(rps: nat, key: string, first: int, n: nat): seq<Call> {
    (if n == 0 then [] else Windows(rps, key, first, n - 1)) + Burst(key, Opening(first, n), rps)
  }

  lemma FullBurst(rps: nat, calls: seq<Call>, key: string, now: int, from: int, to: int)
    requires rps >= 1 && from <= now <= to
    requires InOrder(calls) && (calls != [] ==> Last(calls).now <= now)
    requires var e := Find(After(rps, calls), key); e.Some? ==> e.value.windowEnd < now
    ensures var run := calls + Burst(key, now, rps);
      && InOrder(run) && run != [] && Last(run).now <= now
      && Allowed(rps, run, key, from, to) == Allowed(rps, calls, key, from, to) + rps
      && Find(After(rps, run), key) == Some(Entry(rps, now + SECOND))
  {
    hide After, Allowed, InOrder, Burst;
    BurstAllowed(rps, calls, key, now, rps, from, to);
  }

  lemma {:induction false} WindowsAllowed(rps: nat, calls: seq<Call>, key: string, first: int, n: nat, from: int, to: int)
    requires rps >= 1 && from <= first && Opening(first, n) <= to
    requires InOrder(calls) && (calls != [] ==> Last(calls).now < first)
    requires var e := Find(After(rps, calls), key); e.Some? ==> e.value.windowEnd < first
    ensures var run := calls + Windows(rps, key, first, n);
      && InOrder(run) && run != [] && Last(run).now <= Opening(first, n)
      && Allowed(rps, run, key, from, to) == Allowed(rps, calls, key, from, to) + (n + 1) * rps
      && Find(After(rps, run), key) == Some(Entry(rps, Opening(first, n) + SECOND))
    decreases n
  {
    hide After, Allowed, InOrder, Burst, Find, Opening, Windows;
    OpeningStep(first, n);
    WindowsStep(rps, key, first, n);
    if n == 0 {
      FullBurst(rps, calls, key, first, from, to);
    } else {
      WindowsAllowed(rps, calls, key, first, n - 1, from, to);
      var before := calls + Windows(rps, key, first, n - 1);
      OpeningStep(first, n - 1);
      FullBurst(rps, before, key, Opening(first, n), from, to);
      assert before + Burst(key, Opening(first, n), rps) == calls + Windows(rps, key, first, n);
      OneMoreTime(n, rps);
    }
  }

  lemma WindowsStep(rps: nat, key: string, first: int, n: nat)
    ensures Windows(rps, key, first, n)
         == (if n == 0 then [] else Windows(rps, key, first, n - 1)) + Burst(key, Opening(first, n), rps)
    ensures n == 0 ==> Windows(rps, key, first, n) == Burst(key, Opening(first, n), rps)
  {
  }

  lemma OneMoreTime(n: nat, rps: nat)
    ensures n * rps + rps == (n + 1) * rps
  {
  }

  lemma EmptyRun(rps: int, key: string, from: int, to: int)
    ensures InOrder([]) && After(rps, []) == map[] && Allowed(rps, [], key, from, to) == 0
  {
  }

  // For every rate and every interval some run lets exactly that many calls through.
  lemma RateBoundIsReached(rps: nat, key: string, from: int, to: int) returns (calls: seq<Call>)
    requires rps >= 1 && from <= to
    ensures InOrder(calls) && Allowed(rps, calls, key, from, to) == MostAllowed(rps, to - from)
  {
    hide After, Allowed, InOrder, Burst, Windows;
    var m := SECOND + 1;
    var q, r := (to - from) / m, (to - from) % m;
    EmptyRun(rps, key, from, to);
    assert to - from == q * m + r;
    if r == 0 {
      WindowsAllowed(rps, [], key, from, q, from, to);
      calls := [] + Windows(rps, key, from, q);
      assert (q + 1) * rps == q * rps + rps;
    } else {
      var opening := [] + [Call(key, from - SECOND)];
      OneMoreCall(rps, [], key, from - SECOND, from, to);
      assert Find(After(rps, opening), key) == Some(Entry(1, from));
      assert Allowed(rps, opening, key, from, to) == 0;
      BurstAllowed(rps, opening, key, from, rps - 1, from, to);
      var before := opening + Burst(key, from, rps - 1);
      WindowsAllowed(rps, before, key, from + 1, q, from, to);
      calls := before + Windows(rps, key, from + 1, q);
      assert (q + 1) * rps - 1 + rps == rps - 1 + (q + 1) * rps;
    }
  }

  // ---- A refusal ----

  ghost predicate AreBy(calls: seq<Call>, to: int) {
    forall k :: 0 <= k < |calls| ==> calls[k].now <= to
  }

  // The calls counted in a window were all allowed since it opened.
  lemma {:induction false} CountedAreAllowed(rps: int, calls: seq<Call>, key: string, to: int)
    requires InOrder(calls) && AreBy(calls, to)
    ensures var e := Find(After(rps, calls), key);
      e.Some? ==> e.value.count <= Allowed(rps, calls, key, e.value.windowEnd - SECOND, to)
                  && (calls != [] ==> e.value.windowEnd - SECOND <= Last(calls).now)
    decreases |calls|
  {
    if calls != [] {
      CountedAreAllowed(rps, Init(calls), key, to);
      if |calls| > 1 { assert calls[|calls| - 2].now <= calls[|calls| - 1].now; }
    }
  }

  lemma {:induction false} AllowedInMore(rps: int, calls: seq<Call>, key: string, from: int, from': int, to: int)
    requires from' <= from
    ensures Allowed(rps, calls, key, from, to) <= Allowed(rps, calls, key, from', to)
  {
    if calls != [] {
      AllowedInMore(rps, Init(calls), key, from, from', to);
    }
  }

  // Over every run: a call is refused only if the full rate was allowed to its key within
  // the second before it.  A refusal itself costs nothing.
  lemma RefusedOnlyAtRate(rps: int, calls: seq<Call>)
    requires rps >= 1 && InOrder(calls) && calls != [] && !IsAllowed(rps, calls)
    ensures Allowed(rps, Init(calls), Last(calls).key, Last(calls).now - SECOND, Last(calls).now) >= rps
    ensures After(rps, calls) == After(rps, Init(calls))
  {
    var (key, now) := (Last(calls).key, Last(calls).now);
    CountedAreAllowed(rps, Init(calls), key, now);
    var e := Find(After(rps, Init(calls)), key).value;
    AllowedInMore(rps, Init(calls), key, e.windowEnd - SECOND, now - SECOND, now);
    assert After(rps, Init(calls))[key := e] == After(rps, Init(calls));
  }

  // ---- Keys do not interfere ----

  function Only(calls: seq<Call>, key: string): seq<Call> {
    if calls == [] then []
    else Only(Init(calls), key) + (if Last(calls).key == key then [Last(calls)] else [])
  }

  // What a key gets is what it would get alone.
  lemma {:induction false} KeysAreIndependent(rps: int, calls: seq<Call>, key: string, from: int, to: int)
    ensures Find(After(rps, calls), key) == Find(After(rps, Only(calls, key)), key)
    ensures Allowed(rps, calls, key, from, to) == Allowed(rps, Only(calls, key), key, from, to)
    decreases |calls|
  {
    if calls != [] {
      KeysAreIndependent(rps, Init(calls), key, from, to);
      var alone := Only(Init(calls), key);
      if Last(calls).key == key {
        assert Init(alone + [Last(calls)]) == alone && Last(alone + [Last(calls)]) == Last(calls);
      } else {
        assert Only(calls, key) == alone;
      }
    }
  }
}
