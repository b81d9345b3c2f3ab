/**
 * `ProxyPool` of `pincatch/proxy_pool.py`: a round-robin list of proxies,
 * each with a cooldown deadline and a failure counter, and a cursor. The
 * clock is the `now` parameter of the operations that read it.
 */
module ProxyPoolModel {
  import opened Wrappers
  import opened Strings

  /** The constructor's defaults for the cooldown and the failure threshold. */
  const DEFAULT_COOLDOWN_SECONDS: int := 60
  const DEFAULT_MAX_FAILURES: int := 3

  /** One entry of `_proxies`: `{"url", "cool_until", "failures"}`. */
  datatype Proxy = Proxy(url: string, coolUntil: int, failures: nat)

  /** The comprehension of the constructor: every non-blank entry, stripped, as a fresh proxy. */
  function Initial(raw: seq<string>): (r: seq<Proxy>)
    ensures |r| <= |raw|
    ensures forall i :: 0 <= i < |r| ==> r[i].url != [] && r[i].coolUntil == 0 && r[i].failures == 0
  {
    if raw == [] then []
    else
      var last := raw[|raw| - 1];
      Initial(raw[..|raw| - 1]) + (if last != [] && Strip(last) != [] then [Proxy(Strip(last), 0, 0)] else [])
  }

  /** The pool keeps the input order: entries of a concatenation are those of each part, in turn. */
  lemma {:induction false} InitialConcat(a: seq<string>, b: seq<string>)
    ensures Initial(a + b) == Initial(a) + Initial(b)
    decreases |b|
  {
    if b == [] {
      assert a + b == a;
    } else {
      assert (a + b)[..|a + b| - 1] == a + b[..|b| - 1];
      InitialConcat(a, b[..|b| - 1]);
    }
  }

  /** A single input entry: kept stripped when it is not blank, dropped otherwise. */
  lemma InitialSingle(entry: string)
    ensures Initial([entry]) == if Strip(entry) != [] then [Proxy(Strip(entry), 0, 0)] else []
  {
    assert [entry][..0] == [];
    if entry == [] {
      assert Strip(entry) == [];
    }
  }

  /** `x % n` for `0 <= x < 2n`. */
  lemma ModSmall(x: int, n: int)
    requires 0 < n && 0 <= x < 2 * n
    ensures x % n == if x < n then x else x - n
  {
    if x >= n {
      assert x == n + (x - n);
    }
  }

  /** The position `j` steps on from `start` in a cycle of `n`, that is `(start + j) % n`. */
  function Cyc(start: nat, j: nat, n: nat): (i: nat)
    requires start < n && j <= n
    ensures i < n
    ensures i == (start + j) % n
  {
    ModSmall(start + j, n);
    if start + j < n then start + j else start + j - n
  }

  /**
   * The number of entries inspected before the first one whose deadline has
   * passed, scanning cyclically from `start`; `|ps|` when all are cooling.
   */
  function FirstReady(ps: seq<Proxy>, start: nat, now: int): (k: nat)
    requires start < |ps|
    ensures k <= |ps|
    ensures forall j :: 0 <= j < k ==> ps[Cyc(start, j, |ps|)].coolUntil > now
    ensures k < |ps| ==> ps[Cyc(start, k, |ps|)].coolUntil <= now
  {
    ScanFrom(ps, start, now, 0)
  }

  function ScanFrom(ps: seq<Proxy>, start: nat, now: int, j: nat): (k: nat)
    requires start < |ps| && j <= |ps|
    ensures j <= k <= |ps|
    ensures forall i :: j <= i < k ==> ps[Cyc(start, i, |ps|)].coolUntil > now
    ensures k < |ps| ==> ps[Cyc(start, k, |ps|)].coolUntil <= now
    decreases |ps| - j
  {
    if j == |ps| then j
    else if ps[Cyc(start, j, |ps|)].coolUntil <= now then j
    else ScanFrom(ps, start, now, j + 1)
  }

  /** What one call of `next_proxy` answers and where it leaves the cursor. */
  datatype Step = Step(result: Option<string>, cursor: nat)

  /**
   * `next_proxy` on the values of the pool: the first ready entry from the
   * cursor on, with the cursor one past it; the cursor comes back to where it
   * was when all `|ps|` entries are inspected in vain.
   */
  function NextStep(ps: seq<Proxy>, idx: nat, now: int): (s: Step)
    requires ps == [] || idx < |ps|
    ensures ps == [] ==> s == Step(None, idx)
    ensures ps != [] ==> s.cursor < |ps|
    ensures s.result.Some? ==> exists i :: 0 <= i < |ps| && ps[i].url == s.result.value && ps[i].coolUntil <= now
  {
    if ps == [] then Step(None, idx)
    else
      var n := |ps|;
      var k := FirstReady(ps, idx, now);
      if k < n then Step(Some(ps[Cyc(idx, k, n)].url), Cyc(idx, k + 1, n))
      else Step(None, Cyc(idx, n, n))
  }

  /** Every position is reached by exactly one of the `n` steps from `start`. */
  lemma CyclicOrder(start: nat, n: nat)
    requires start < n
    ensures forall j1, j2 :: 0 <= j1 < n && 0 <= j2 < n && Cyc(start, j1, n) == Cyc(start, j2, n) ==> j1 == j2
    ensures forall i :: 0 <= i < n ==> Cyc(start, Back(start, i, n), n) == i
  {
  }

  /** The number of steps from `start` to `i` in a cycle of `n`. */
  function Back(start: nat, i: nat, n: nat): (j: nat)
    requires start < n && i < n
    ensures j < n
  {
    if start <= i then i - start else i + n - start
  }

  /** `next_proxy` answers `None` exactly when the pool is empty or every entry is cooling. */
  lemma NextStepNone(ps: seq<Proxy>, idx: nat, now: int)
    requires ps == [] || idx < |ps|
    ensures NextStep(ps, idx, now).result.None? <==> forall i :: 0 <= i < |ps| ==> ps[i].coolUntil > now
  {
    if ps != [] && FirstReady(ps, idx, now) == |ps| {
      CyclicOrder(idx, |ps|);
      forall i | 0 <= i < |ps| ensures ps[i].coolUntil > now {
        var j := Back(idx, i, |ps|);
        assert ps[Cyc(idx, j, |ps|)].coolUntil > now;
      }
    }
  }

  /** The answers of `m` consecutive calls at the same time, starting from cursor `idx`. */
  function Calls(ps: seq<Proxy>, idx: nat, now: int, m: nat): (r: seq<Option<string>>)
    requires ps == [] || idx < |ps|
    ensures |r| == m
    decreases m
  {
    if m == 0 then []
    else
      var s := NextStep(ps, idx, now);
      [s.result] + Calls(ps, s.cursor, now, m - 1)
  }

  /** With no proxy cooling, consecutive calls go round the pool from the cursor, one entry per call. */
  lemma {:induction false} CallsRoundRobin(ps: seq<Proxy>, idx: nat, now: int, m: nat)
    requires idx < |ps| && m <= |ps|
    requires forall i :: 0 <= i < |ps| ==> ps[i].coolUntil <= now
    ensures forall j :: 0 <= j < m ==> Calls(ps, idx, now, m)[j] == Some(ps[Cyc(idx, j, |ps|)].url)
    decreases m
  {
    var n := |ps|;
    if m > 0 {
      assert FirstReady(ps, idx, now) == 0;
      var next := Cyc(idx, 1, n);
      assert NextStep(ps, idx, now) == Step(Some(ps[idx].url), next);
      CallsRoundRobin(ps, next, now, m - 1);
      forall j | 0 <= j < m ensures Calls(ps, idx, now, m)[j] == Some(ps[Cyc(idx, j, n)].url) {
        if j > 0 {
          assert Calls(ps, idx, now, m)[j] == Calls(ps, next, now, m - 1)[j - 1];
          assert Cyc(next, j - 1, n) == Cyc(idx, j, n);
        }
      }
    }
  }

  /** With no proxy cooling, `len` consecutive calls return every proxy exactly once. */
  lemma RoundRobinVisitsEach(ps: seq<Proxy>, idx: nat, now: int)
    requires idx < |ps|
    requires forall i :: 0 <= i < |ps| ==> ps[i].coolUntil <= now
    ensures forall j :: 0 <= j < |ps| ==> Calls(ps, idx, now, |ps|)[j] == Some(ps[Cyc(idx, j, |ps|)].url)
    ensures forall i :: 0 <= i < |ps| ==> Calls(ps, idx, now, |ps|)[Back(idx, i, |ps|)] == Some(ps[i].url)
    ensures forall j1, j2 :: 0 <= j1 < |ps| && 0 <= j2 < |ps| && Cyc(idx, j1, |ps|) == Cyc(idx, j2, |ps|) ==> j1 == j2
  {
    var n := |ps|;
    CallsRoundRobin(ps, idx, now, n);
    CyclicOrder(idx, n);
    forall i | 0 <= i < n ensures Calls(ps, idx, now, n)[Back(idx, i, n)] == Some(ps[i].url) {
      assert Cyc(idx, Back(idx, i, n), n) == i;
    }
  }

  /** `_find`: the position of the first entry with that URL; `None` for a missing or empty URL. */
  function FindIn(ps: seq<Proxy>, url: Option<string>): (r: Option<nat>)
    ensures r.Some? ==> url.Some? && url.value != [] && r.value < |ps| && ps[r.value].url == url.value
    ensures r.Some? ==> forall j :: 0 <= j < r.value ==> ps[j].url != url.value
    ensures r.None? ==> url.None? || url.value == [] || forall j :: 0 <= j < |ps| ==> ps[j].url != url.value
  {
    if url.None? || url.value == [] then None else IndexOfUrl(ps, url.value)
  }

  function IndexOfUrl(ps: seq<Proxy>, u: string): (r: Option<nat>)
    ensures r.Some? ==> r.value < |ps| && ps[r.value].url == u && forall j :: 0 <= j < r.value ==> ps[j].url != u
    ensures r.None? ==> forall j :: 0 <= j < |ps| ==> ps[j].url != u
  {
    if ps == [] then None
    else if ps[0].url == u then Some(0)
    else match IndexOfUrl(ps[1..], u)
      case None => None
      case Some(i) => Some(i + 1)
  }

  /** The entry after `mark_failure` at time `now`. */
  function Failed(p: Proxy, now: int, cooldown: int, maxFailures: int): (q: Proxy)
    ensures q.url == p.url && q.failures == p.failures + 1
  {
    var failures := p.failures + 1;
    var coolUntil := now + cooldown;
    Proxy(p.url, if failures > maxFailures then coolUntil + cooldown else coolUntil, failures)
  }

  /**
   * The deadline after a failure: one cooldown from now while the counter
   * stays within the threshold, two once it exceeds it.
   */
  lemma FailedDeadline(p: Proxy, now: int, cooldown: int, maxFailures: int)
    ensures p.failures + 1 <= maxFailures ==> Failed(p, now, cooldown, maxFailures).coolUntil == now + cooldown
    ensures p.failures + 1 > maxFailures ==> Failed(p, now, cooldown, maxFailures).coolUntil == now + 2 * cooldown
  {
  }

  /**
   * With a positive cooldown, a proxy that just failed is not picked again
   * before its cooldown runs out, so the next attempt uses another entry.
   */
  lemma FailedNotPicked(ps: seq<Proxy>, k: nat, idx: nat, now: int, t: int, cooldown: int, maxFailures: int)
    requires k < |ps| && idx < |ps| && 0 < cooldown && t < now + cooldown
    ensures var after := ps[k := Failed(ps[k], now, cooldown, maxFailures)];
      var j := FirstReady(after, idx, t);
      j < |after| ==> Cyc(idx, j, |after|) != k
  {
  }

  /** The entry after `mark_success`: no failures and eligible at once. */
  function Succeeded(p: Proxy): (q: Proxy)
    ensures q.url == p.url && q.failures == 0
    ensures q.coolUntil <= 0
  {
    Proxy(p.url, 0, 0)
  }

  class ProxyPool {
    var proxies: seq<Proxy>
    var idx: nat
    var cooldownSeconds: int
    var maxFailures: int
    var retryStatuses: set<int>

    /** The cursor points into the pool whenever the pool is not empty. */
    ghost predicate Valid()
      reads this
    {
      proxies == [] || idx < |proxies|
    }

    /** `ProxyPool(proxies, cooldown_seconds, max_failures, retry_statuses)`; a missing `retry_statuses` is the empty sequence. */
    constructor (raw: seq<string>, cooldown: int, maxFail: int, retry: seq<int>)
      ensures Valid()
      ensures proxies == Initial(raw) && idx == 0
      ensures cooldownSeconds == cooldown && maxFailures == maxFail
      ensures retryStatuses == set s | s in retry
    {
      var ps: seq<Proxy> := [];
      for i := 0 to |raw|
        invariant ps == Initial(raw[..i])
      {
        assert raw[..i + 1][..i] == raw[..i];
        var entry := raw[i];
        if entry != [] && Strip(entry) != [] {
          ps := ps + [Proxy(Strip(entry), 0, 0)];
        }
      }
      assert raw[..|raw|] == raw;
      proxies := ps;
      idx := 0;
      cooldownSeconds := cooldown;
      maxFailures := maxFail;
      retryStatuses := set s | s in retry;
    }

    /** `__len__`. */
    function Length(): (n: nat)
      reads this
      ensures n == |proxies|
    {
      |proxies|
    }

    /** `next_proxy()`, with the clock reading passed in as `now`. */
    method NextProxy(now: int) returns (r: Option<string>)
      requires Valid()
      modifies this
      ensures Valid()
      ensures proxies == old(proxies) && cooldownSeconds == old(cooldownSeconds)
      ensures maxFailures == old(maxFailures) && retryStatuses == old(retryStatuses)
      ensures Step(r, idx) == NextStep(old(proxies), old(idx), now)
    {
      if |proxies| == 0 {
        return None;
      }
      var n := |proxies|;
      var start := idx;
      var j := 0;
      while j < n
        invariant proxies == old(proxies) && start == old(idx) && n == |proxies|
        invariant 0 <= j <= n
        invariant idx == Cyc(start, j, n)
        invariant forall i :: 0 <= i < j ==> proxies[Cyc(start, i, n)].coolUntil > now
        invariant cooldownSeconds == old(cooldownSeconds) && maxFailures == old(maxFailures)
        invariant retryStatuses == old(retryStatuses)
      {
        var candidate := proxies[idx];
        ModSmall(idx + 1, n);
        assert (idx + 1) % n == Cyc(start, j + 1, n);
        idx := (idx + 1) % n;
        if candidate.coolUntil <= now {
          assert FirstReady(proxies, start, now) == j;
          return Some(candidate.url);
        }
        j := j + 1;
      }
      assert FirstReady(proxies, start, now) == n;
      r := None;
    }

    /** `mark_failure(proxy_url)` at time `now`; a missing or unknown URL changes nothing. */
    method MarkFailure(url: Option<string>, now: int)
      requires Valid()
      modifies this
      ensures Valid()
      ensures idx == old(idx) && cooldownSeconds == old(cooldownSeconds)
      ensures maxFailures == old(maxFailures) && retryStatuses == old(retryStatuses)
      ensures FindIn(old(proxies), url).None? ==> proxies == old(proxies)
      ensures FindIn(old(proxies), url).Some? ==>
        var k := FindIn(old(proxies), url).value;
        proxies == old(proxies)[k := Failed(old(proxies)[k], now, cooldownSeconds, maxFailures)]
    {
      var k := FindIn(proxies, url);
      if k.None? {
        return;
      }
      var p := proxies[k.value];
      var failures := p.failures + 1;
      var coolUntil := now + cooldownSeconds;
      if failures > maxFailures {
        coolUntil := coolUntil + cooldownSeconds;
      }
      proxies := proxies[k.value := Proxy(p.url, coolUntil, failures)];
    }

    /** `mark_success(proxy_url)`; a missing or unknown URL changes nothing. */
    method MarkSuccess(url: Option<string>)
      requires Valid()
      modifies this
      ensures Valid()
      ensures idx == old(idx) && cooldownSeconds == old(cooldownSeconds)
      ensures maxFailures == old(maxFailures) && retryStatuses == old(retryStatuses)
      ensures FindIn(old(proxies), url).None? ==> proxies == old(proxies)
      ensures FindIn(old(proxies), url).Some? ==>
        var k := FindIn(old(proxies), url).value;
        proxies == old(proxies)[k := Succeeded(old(proxies)[k])]
    {
      var k := FindIn(proxies, url);
      if k.None? {
        return;
      }
      var p := proxies[k.value];
      proxies := proxies[k.value := Proxy(p.url, 0, 0)];
    }
  }
}
