/**
 * The job registry (internal/job/job_handler.go): a set of held keys, each
 * stamped with the instant of its last access, used as a try-lock so that
 * one file is assembled or one archive is built at a time. Instants are
 * nanoseconds on one clock, passed in by the caller. The per-job mutex,
 * the registry lock and the ticking goroutine are not modelled: every
 * operation here is one critical section.
 */
module Jobs {
  import opened Wrappers

  /** jobs maps each held key to its last access; closed records that Close ran. */
  datatype Registry = Registry(jobs: map<string, int>, timeout: int, closed: bool)

  /** NewJobManager: nothing held, the sweeper running. */
  function New(timeout: int): (r: Registry)
    ensures r.jobs == map[] && r.timeout == timeout && !r.closed
  {
    Registry(map[], timeout, false)
  }

  predicate Held(r: Registry, key: string) {
    key in r.jobs
  }

  /**
   * AcquireJob: succeeds exactly when the key is free. Either way the key is
   * held afterwards with its last access set to now, so a refused caller
   * still keeps a running job from being swept.
   */
  function Acquire(r: Registry, key: string, now: int): (res: (bool, Registry))
    ensures res.0 <==> !Held(r, key)
    ensures Held(res.1, key) && res.1.jobs[key] == now
    ensures forall k :: k != key ==> (Held(res.1, k) <==> Held(r, k))
    ensures forall k :: k != key && Held(r, k) ==> Held(res.1, k) && res.1.jobs[k] == r.jobs[k]
    ensures res.1.timeout == r.timeout && res.1.closed == r.closed
  {
    (key !in r.jobs, r.(jobs := r.jobs[key := now]))
  }

  /** ReleaseJob: the key is free afterwards; a key that was not held changes nothing. */
  function Release(r: Registry, key: string): (r': Registry)
    ensures !Held(r', key)
    ensures !Held(r, key) ==> r' == r
    ensures forall k :: k != key ==> (Held(r', k) <==> Held(r, k))
    ensures forall k :: k != key && Held(r, k) ==> Held(r', k) && r'.jobs[k] == r.jobs[k]
    ensures r'.timeout == r.timeout && r'.closed == r.closed
  {
    if key in r.jobs then r.(jobs := r.jobs - {key}) else r
  }

  /** Taking a free key and giving it back leaves the registry as it was. */
  lemma AcquireReleaseRestores(r: Registry, key: string, now: int)
    requires !Held(r, key)
    ensures Release(Acquire(r, key, now).1, key) == r
  {
    assert r.jobs[key := now] - {key} == r.jobs;
  }

  /** A job whose last access is further in the past than the timeout. */
  predicate Stale(r: Registry, key: string, now: int)
    requires Held(r, key)
  {
    now - r.jobs[key] > r.timeout
  }

  /** What one tick of cleanupStaleJobs leaves: every fresh job, untouched; nothing once closed. */
  function Swept(r: Registry, now: int): Registry {
    if r.closed then r
    else r.(jobs := map k | k in r.jobs && !Stale(r, k, now) :: r.jobs[k])
  }

  /**
   * One tick of cleanupStaleJobs, deleting stale entries while ranging over
   * the map. The sweeper has stopped once the registry is closed.
   */
  method Sweep(r: Registry, now: int) returns (r': Registry)
    ensures r' == Swept(r, now)
  {
    if r.closed {
      return r;
    }
    var jobs := r.jobs;
    var pending := r.jobs.Keys;
    while pending != {}
      invariant pending <= r.jobs.Keys
      invariant forall k :: k in jobs <==> k in r.jobs && (k in pending || !Stale(r, k, now))
      invariant forall k :: k in jobs ==> jobs[k] == r.jobs[k]
      decreases |pending|
    {
      var k :| k in pending;
      if now - r.jobs[k] > r.timeout {
        jobs := jobs - {k};
      }
      pending := pending - {k};
    }
    r' := r.(jobs := jobs);
  }

  /**
   * Close: closing the stop channel a second time panics (None). Otherwise
   * every job is dropped and the sweeper stops.
   */
  function Close(r: Registry): (res: Option<Registry>)
    ensures res.None? <==> r.closed
    ensures res.Some? ==> res.value.jobs == map[] && res.value.closed && res.value.timeout == r.timeout
  {
    if r.closed then None else Some(Registry(map[], r.timeout, true))
  }

  // ---------------------------------------------------------------------
  // Properties
  // ---------------------------------------------------------------------

  /** Acquire the same key at each of the given instants; the outcomes in order. */
  function AcquireEach(r: Registry, key: string, times: seq<int>): (res: (seq<bool>, Registry))
    ensures |res.0| == |times|
    decreases |times|
  {
    if times == [] then ([], r)
    else
      var (ok, r1) := Acquire(r, key, times[0]);
      var (rest, r2) := AcquireEach(r1, key, times[1..]);
      ([ok] + rest, r2)
  }

  /** Without a release in between, only the first of many acquisitions of a key can succeed. */
  lemma {:induction false} OnlyFirstAcquireSucceeds(r: Registry, key: string, times: seq<int>)
    ensures forall i :: 0 <= i < |times| ==>
      (AcquireEach(r, key, times).0[i] <==> i == 0 && !Held(r, key))
    decreases |times|
  {
    if times != [] {
      var r1 := Acquire(r, key, times[0]).1;
      OnlyFirstAcquireSucceeds(r1, key, times[1..]);
      assert Held(r1, key);
      var oks := AcquireEach(r, key, times).0;
      var rest := AcquireEach(r1, key, times[1..]).0;
      assert oks == [Acquire(r, key, times[0]).0] + rest;
      assert forall i :: 1 <= i < |times| ==> oks[i] == rest[i - 1];
    }
  }

  /** A released key can be acquired again, by anyone. */
  lemma AcquireReleaseAcquire(r: Registry, key: string, t1: int, t2: int)
    ensures var (ok1, r1) := Acquire(r, key, t1);
      var (ok2, _) := Acquire(Release(r1, key), key, t2);
      ok2 && (ok1 <==> !Held(r, key))
  {
  }

  /** A key left stale past the timeout is freed by the next sweep, unless the registry is closed. */
  lemma StaleJobFreedBySweep(r: Registry, key: string, now: int)
    requires Held(r, key) && Stale(r, key, now) && !r.closed
    ensures !Held(Swept(r, now), key)
    ensures Acquire(Swept(r, now), key, now).0
  {
  }

  /** A job touched within the timeout survives the sweep with its timestamp. */
  lemma FreshJobSurvivesSweep(r: Registry, key: string, now: int)
    requires Held(r, key) && !Stale(r, key, now)
    ensures Held(Swept(r, now), key) && Swept(r, now).jobs[key] == r.jobs[key]
  {
  }

  /** Sweeping twice at the same instant removes nothing more. */
  lemma SweepIdempotent(r: Registry, now: int)
    ensures Swept(Swept(r, now), now) == Swept(r, now)
  {
  }

  /**
   * After Close the registry still works as a try-lock: every key is free
   * and can be acquired, no sweep ever evicts it again, and a second Close
   * panics.
   */
  lemma AfterClose(r: Registry, key: string, t: int, later: int)
    requires Close(r).Some?
    ensures var c := Close(r).value;
      && !Held(c, key)
      && Acquire(c, key, t).0
      && Swept(Acquire(c, key, t).1, later) == Acquire(c, key, t).1
      && Close(c).None?
  {
  }
}
