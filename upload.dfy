/** The upload engine: the retry loop that sends one FIT file and decides from
    the text of each error whether to stop, wait or try again, and the batch
    loop that runs it over several files, keeps the success / duplicate /
    failure counters and records each uploaded file in the processed-files
    ledger. The transport, the session refresh and the clock are inputs: each
    attempt of a file is scripted as the refresh result and what the upload
    call did. */
module Upload {
  import opened Common
  import opened Settings
  import opened FileManager

  /** `AppConfig.MAX_RETRY_ATTEMPTS`. */
  const MaxRetryAttempts: nat := 3

  // ---------------------------------------------------------------------------
  // Error classification
  // ---------------------------------------------------------------------------

  datatype ErrorKind = Duplicate | Unauthorized | RateLimited | Network | OtherError

  /** The tests of `_upload_file_with_retry`, in order, on `str(e).lower()`. */
  function Classify(message: string): ErrorKind
  {
    var m := Lower(message);
    if Contains(m, "409") || Contains(m, "duplicate") then Duplicate
    else if Contains(m, "401") || Contains(m, "unauthorized") then Unauthorized
    else if Contains(m, "429") || Contains(m, "rate limit") then RateLimited
    else if Contains(m, "timeout") || Contains(m, "connection") || Contains(m, "network") then Network
    else OtherError
  }

  /** Each kind is chosen exactly when its markers occur in the lower-cased
      message and no marker of an earlier kind does. */
  lemma ClassifyMarkers(message: string)
    ensures var m := Lower(message); var k := Classify(message);
      && (k == Duplicate <==> Contains(m, "409") || Contains(m, "duplicate"))
      && (k == Unauthorized <==> k != Duplicate && (Contains(m, "401") || Contains(m, "unauthorized")))
      && (k == RateLimited <==> k != Duplicate && k != Unauthorized &&
                                (Contains(m, "429") || Contains(m, "rate limit")))
      && (k == Network <==> k != Duplicate && k != Unauthorized && k != RateLimited &&
                            (Contains(m, "timeout") || Contains(m, "connection") || Contains(m, "network")))
  {
  }

  lemma {:induction false} LowerIdempotent(s: string)
    ensures Lower(Lower(s)) == Lower(s)
  {
    var l := Lower(s);
    assert forall i :: 0 <= i < |s| ==> LowerChar(l[i]) == l[i];
  }

  /** Classification does not depend on letter case. */
  lemma ClassifyIgnoresCase(message: string)
    ensures Classify(Lower(message)) == Classify(message)
  {
    LowerIdempotent(message);
  }

  // ---------------------------------------------------------------------------
  // One file: _upload_file_with_retry
  // ---------------------------------------------------------------------------

  /** What the upload call of one attempt did. */
  datatype Outcome = Uploaded | Raised(message: string)

  /** One scripted attempt: whether `refresh_session()` returned True, and the
      upload's outcome (consulted only when it did). */
  datatype Attempt = Attempt(sessionRefreshed: bool, outcome: Outcome)

  /** A file to upload: its path, whether it exists and is readable, the time
      stamp its ledger entry would get, and its scripted attempts. */
  datatype UploadJob = UploadJob(path: string, readable: bool, markedAt: string, script: seq<Attempt>)

  /** The `k`-th scripted attempt; past the end of the script the session
      refresh is taken to fail. */
  function AttemptAt(script: seq<Attempt>, k: nat): Attempt
  {
    if k < |script| then script[k] else Attempt(false, Uploaded)
  }

  /** The returned pair `(success, is_duplicate)`, the number of attempts
      started, the seconds slept, in order, and whether a 401 cleared the
      connection flag. */
  datatype RetryResult = RetryResult(success: bool, duplicate: bool, attempts: nat, waits: seq<nat>, unauthorized: bool)

  function Pow2(k: nat): (r: nat)
    ensures r >= 1
  {
    if k == 0 then 1 else 2 * Pow2(k - 1)
  }

  function Capped(x: nat, cap: nat): (r: nat)
    ensures r <= cap && r <= x
    ensures r == x || r == cap
  {
    if x < cap then x else cap
  }

  /** A result that ends the loop at attempt `k` without further waiting. */
  function Stop(k: nat, success: bool, duplicate: bool, unauthorized: bool): RetryResult
  {
    RetryResult(success, duplicate, k + 1, [], unauthorized)
  }

  /** `r` preceded by the wait `w`, if there is one. */
  function After(w: Option<nat>, r: RetryResult): RetryResult
  {
    if w.Some? then r.(waits := [w.value] + r.waits) else r
  }

  /** `r` preceded by the waits already slept. */
  function Prefixed(waits: seq<nat>, r: RetryResult): RetryResult
  {
    r.(waits := waits + r.waits)
  }

  lemma PrefixedAfter(waits: seq<nat>, w: nat, r: RetryResult)
    ensures Prefixed(waits, After(Some(w), r)) == Prefixed(waits + [w], r)
  {
    assert waits + ([w] + r.waits) == waits + [w] + r.waits;
  }

  /** The seconds `time.sleep` is given after failed attempt `k`, when the
      loop goes on: 2^(k+1) capped at 60 for a rate limit (even after the
      last attempt); before any attempt but the last, 2^k capped at 30 for a
      network error and 2^k for any other error. */
  function Backoff(kind: ErrorKind, k: nat, maxRetries: nat): Option<nat>
  {
    match kind
    case RateLimited => Some(Capped(Pow2(k) * 2, 60))
    case Network => if k + 1 < maxRetries then Some(Capped(Pow2(k), 30)) else None
    case OtherError => if k + 1 < maxRetries then Some(Pow2(k)) else None
    case _ => None
  }

  /** The retry loop from attempt `k` on, given the connection flag. */
  function RetryFrom(connected: bool, script: seq<Attempt>, maxRetries: nat, k: nat): RetryResult
    requires k <= maxRetries
    decreases maxRetries - k
  {
    if k == maxRetries then RetryResult(false, false, maxRetries, [], false)
    else
      var a := AttemptAt(script, k);
      if !connected || !a.sessionRefreshed then Stop(k, false, false, false)
      else if a.outcome.Uploaded? then Stop(k, true, false, false)
      else
        var kind := Classify(a.outcome.message);
        if kind == Duplicate then Stop(k, true, true, false)
        else if kind == Unauthorized then Stop(k, false, false, true)
        else After(Backoff(kind, k, maxRetries), RetryFrom(connected, script, maxRetries, k + 1))
  }

  /** `_upload_file_with_retry` for one file: a missing or unreadable file
      fails before any attempt. */
  function Retry(connected: bool, job: UploadJob, maxRetries: nat): RetryResult
  {
    if !job.readable then RetryResult(false, false, 0, [], false)
    else RetryFrom(connected, job.script, maxRetries, 0)
  }

  lemma {:induction false} RetryFromShape(connected: bool, script: seq<Attempt>, maxRetries: nat, k: nat)
    requires k <= maxRetries
    ensures var r := RetryFrom(connected, script, maxRetries, k);
      && k <= r.attempts <= maxRetries
      && (k < maxRetries ==> k < r.attempts)
      && |r.waits| <= r.attempts - k
      && (r.duplicate ==> r.success)
      && (r.unauthorized ==> !r.success && connected)
      && (r.success ==> connected)
      && (r.attempts < maxRetries ==> r.success || r.unauthorized || !AttemptAt(script, r.attempts - 1).sessionRefreshed || !connected)
    decreases maxRetries - k
  {
    if k < maxRetries {
      RetryFromShape(connected, script, maxRetries, k + 1);
    }
  }

  /** At most `max_retries` attempts; a duplicate counts as a success; a 401
      is a failure; nothing is attempted for a missing file, and nothing
      succeeds without the connection flag. */
  lemma RetryBounds(connected: bool, job: UploadJob, maxRetries: nat)
    ensures var r := Retry(connected, job, maxRetries);
      && r.attempts <= maxRetries
      && |r.waits| <= r.attempts
      && (r.duplicate ==> r.success)
      && (r.unauthorized ==> !r.success)
      && (!job.readable ==> !r.success && r.attempts == 0)
      && (!connected ==> !r.success && !r.unauthorized && r.attempts <= 1)
  {
    if job.readable {
      RetryFromShape(connected, job.script, maxRetries, 0);
    }
  }

  lemma {:induction false} Pow2Monotone(j: nat, k: nat)
    requires j <= k
    ensures Pow2(j) <= Pow2(k)
    decreases k
  {
    if j < k {
      Pow2Monotone(j, k - 1);
    }
  }

  lemma BackoffAtMostAMinute(kind: ErrorKind, k: nat, maxRetries: nat)
    requires maxRetries <= 7
    ensures Backoff(kind, k, maxRetries).Some? ==> Backoff(kind, k, maxRetries).value <= 60
  {
    if k + 1 < maxRetries {
      Pow2Monotone(k, 5);
      assert Pow2(5) == 32;
    }
  }

  lemma {:induction false} RetryFromWaitsAtMostAMinute(connected: bool, script: seq<Attempt>, maxRetries: nat, k: nat)
    requires k <= maxRetries <= 7
    ensures forall w :: w in RetryFrom(connected, script, maxRetries, k).waits ==> w <= 60
    decreases maxRetries - k
  {
    if k < maxRetries {
      RetryFromWaitsAtMostAMinute(connected, script, maxRetries, k + 1);
      var a := AttemptAt(script, k);
      if connected && a.sessionRefreshed && a.outcome.Raised? {
        BackoffAtMostAMinute(Classify(a.outcome.message), k, maxRetries);
      }
    }
  }

  /** With at most seven attempts, and so with the default of three, no wait
      exceeds a minute: rate limits are capped at 60 s, network errors at 30 s,
      and other errors wait 2^attempt s before any attempt but the last. */
  lemma WaitsAtMostAMinute(connected: bool, job: UploadJob, maxRetries: nat)
    requires maxRetries <= 7
    ensures forall w :: w in Retry(connected, job, maxRetries).waits ==> w <= 60
  {
    if job.readable {
      RetryFromWaitsAtMostAMinute(connected, job.script, maxRetries, 0);
    }
  }

  /** Every scripted attempt from `k` on reaches the server and fails with an
      error of the given kind. */
  ghost predicate AllFailWith(script: seq<Attempt>, maxRetries: nat, k: nat, kind: ErrorKind)
  {
    forall j :: k <= j < maxRetries ==>
      AttemptAt(script, j).sessionRefreshed && AttemptAt(script, j).outcome.Raised? &&
      Classify(AttemptAt(script, j).outcome.message) == kind
  }

  /** An attempt that reaches the server and fails with an error that is
      neither a duplicate nor a 401 is followed by its backoff and the next
      attempt. */
  lemma RetryFailedStep(script: seq<Attempt>, maxRetries: nat, k: nat, kind: ErrorKind)
    requires k < maxRetries && AllFailWith(script, maxRetries, k, kind)
    requires kind != Duplicate && kind != Unauthorized
    ensures RetryFrom(true, script, maxRetries, k) ==
              After(Backoff(kind, k, maxRetries), RetryFrom(true, script, maxRetries, k + 1))
    ensures AllFailWith(script, maxRetries, k + 1, kind)
  {
    assert AttemptAt(script, k).sessionRefreshed;
  }

  /** The waits slept from attempt `k` on when every attempt fails with an
      error of the given kind. */
  function FailureWaits(kind: ErrorKind, k: nat, maxRetries: nat): seq<nat>
    decreases maxRetries - k
  {
    if k >= maxRetries then []
    else
      var w := Backoff(kind, k, maxRetries);
      (if w.Some? then [w.value] else []) + FailureWaits(kind, k + 1, maxRetries)
  }

  /** Failures that are neither duplicates nor 401s use up every attempt,
      sleep each attempt's backoff and fail the file. */
  lemma {:induction false} FailingFrom(script: seq<Attempt>, maxRetries: nat, k: nat, kind: ErrorKind)
    requires k <= maxRetries && AllFailWith(script, maxRetries, k, kind)
    requires kind != Duplicate && kind != Unauthorized
    ensures var r := RetryFrom(true, script, maxRetries, k);
      && !r.success && !r.unauthorized && r.attempts == maxRetries
      && r.waits == FailureWaits(kind, k, maxRetries)
    decreases maxRetries - k
  {
    if k < maxRetries {
      RetryFailedStep(script, maxRetries, k, kind);
      FailingFrom(script, maxRetries, k + 1, kind);
    }
  }

  lemma {:induction false} RateLimitedWaits(k: nat, maxRetries: nat)
    requires k <= maxRetries
    ensures var w := FailureWaits(RateLimited, k, maxRetries);
      && |w| == maxRetries - k
      && forall i :: 0 <= i < |w| ==> w[i] == Capped(Pow2(k + i) * 2, 60)
    decreases maxRetries - k
  {
    if k < maxRetries {
      RateLimitedWaits(k + 1, maxRetries);
      var w := FailureWaits(RateLimited, k, maxRetries);
      var rest := FailureWaits(RateLimited, k + 1, maxRetries);
      assert w == [Capped(Pow2(k) * 2, 60)] + rest;
      forall i | 0 < i < |w| ensures w[i] == Capped(Pow2(k + i) * 2, 60) {
        assert w[i] == rest[i - 1];
      }
    }
  }

  /** Rate-limit responses use up every attempt, each followed by a wait of
      min(2^(attempt+1), 60) seconds, and the file fails. */
  lemma AlwaysRateLimited(job: UploadJob, maxRetries: nat)
    requires job.readable && AllFailWith(job.script, maxRetries, 0, RateLimited)
    ensures var r := Retry(true, job, maxRetries);
      && !r.success && r.attempts == maxRetries
      && |r.waits| == maxRetries
      && forall i :: 0 <= i < maxRetries ==> r.waits[i] == Capped(Pow2(i) * 2, 60)
  {
    FailingFrom(job.script, maxRetries, 0, RateLimited);
    RateLimitedWaits(0, maxRetries);
  }

  lemma {:induction false} NetworkWaits(k: nat, maxRetries: nat)
    requires k < maxRetries
    ensures var w := FailureWaits(Network, k, maxRetries);
      && |w| == maxRetries - 1 - k
      && forall i :: 0 <= i < |w| ==> w[i] == Capped(Pow2(k + i), 30)
    decreases maxRetries - k
  {
    var w := FailureWaits(Network, k, maxRetries);
    var rest := FailureWaits(Network, k + 1, maxRetries);
    if k < maxRetries - 1 {
      NetworkWaits(k + 1, maxRetries);
      assert w == [Capped(Pow2(k), 30)] + rest;
      forall i | 0 < i < |w| ensures w[i] == Capped(Pow2(k + i), 30) {
        assert w[i] == rest[i - 1];
      }
    } else {
      assert w == rest == [];
    }
  }

  /** Network errors on every attempt: all attempts are made, the backoff
      min(2^attempt, 30) is slept after each attempt but the last, and the
      file fails. */
  lemma AlwaysNetworkFailing(job: UploadJob, maxRetries: nat)
    requires 0 < maxRetries && job.readable && AllFailWith(job.script, maxRetries, 0, Network)
    ensures var r := Retry(true, job, maxRetries);
      && !r.success && r.attempts == maxRetries
      && |r.waits| == maxRetries - 1
      && forall i :: 0 <= i < maxRetries - 1 ==> r.waits[i] == Capped(Pow2(i), 30)
  {
    FailingFrom(job.script, maxRetries, 0, Network);
    NetworkWaits(0, maxRetries);
  }

  /** With the default of three attempts: waits of 2, 4 and 8 seconds under a
      rate limit, 1 and 2 seconds under network errors. */
  lemma DefaultBackoff(job: UploadJob)
    requires job.readable
    ensures AllFailWith(job.script, MaxRetryAttempts, 0, RateLimited) ==>
              Retry(true, job, MaxRetryAttempts).waits == [2, 4, 8]
    ensures AllFailWith(job.script, MaxRetryAttempts, 0, Network) ==>
              Retry(true, job, MaxRetryAttempts).waits == [1, 2]
  {
    assert Pow2(1) == 2 && Pow2(2) == 4;
    if AllFailWith(job.script, MaxRetryAttempts, 0, RateLimited) {
      AlwaysRateLimited(job, MaxRetryAttempts);
    }
    if AllFailWith(job.script, MaxRetryAttempts, 0, Network) {
      AlwaysNetworkFailing(job, MaxRetryAttempts);
    }
  }

  // ---------------------------------------------------------------------------
  // A batch: upload_files
  // ---------------------------------------------------------------------------

  /** The results of a batch, file by file: a 401 clears the connection flag
      for the files after it. */
  function RunAll(connected: bool, jobs: seq<UploadJob>, maxRetries: nat): (outs: seq<RetryResult>)
    ensures |outs| == |jobs|
  {
    if jobs == [] then []
    else
      var init := jobs[..|jobs| - 1];
      RunAll(connected, init, maxRetries) + [Retry(ConnectedAfter(connected, init, maxRetries), jobs[|jobs| - 1], maxRetries)]
  }

  /** The connection flag after a batch. */
  function ConnectedAfter(connected: bool, jobs: seq<UploadJob>, maxRetries: nat): bool
  {
    if jobs == [] then connected
    else
      var init := jobs[..|jobs| - 1];
      var c := ConnectedAfter(connected, init, maxRetries);
      c && !Retry(c, jobs[|jobs| - 1], maxRetries).unauthorized
  }

  /** Once a file is refused with a 401, no later file of the batch succeeds. */
  lemma {:induction false} NothingSucceedsAfterUnauthorized(connected: bool, jobs: seq<UploadJob>, maxRetries: nat, i: nat)
    requires i < |jobs| && RunAll(connected, jobs, maxRetries)[i].unauthorized
    ensures !ConnectedAfter(connected, jobs, maxRetries)
    ensures forall j :: i < j < |jobs| ==> !RunAll(connected, jobs, maxRetries)[j].success
    decreases |jobs|
  {
    var init := jobs[..|jobs| - 1];
    var last := jobs[|jobs| - 1];
    var c := ConnectedAfter(connected, init, maxRetries);
    assert forall j :: 0 <= j < |init| ==> init[j] == jobs[j];
    if i < |jobs| - 1 {
      assert RunAll(connected, init, maxRetries)[i] == RunAll(connected, jobs, maxRetries)[i];
      NothingSucceedsAfterUnauthorized(connected, init, maxRetries, i);
      RetryBounds(c, last, maxRetries);
    } else {
      RetryBounds(c, last, maxRetries);
    }
  }

  /** `_upload_stats`. */
  datatype UploadStats = UploadStats(total: nat, success: nat, failed: nat, duplicates: nat)

  /** The counter one file's result increments. */
  function Count(stats: UploadStats, r: RetryResult): (s: UploadStats)
    ensures s.total == stats.total
    ensures s.success + s.failed + s.duplicates == stats.success + stats.failed + stats.duplicates + 1
  {
    if !r.success then stats.(failed := stats.failed + 1)
    else if r.duplicate then stats.(duplicates := stats.duplicates + 1)
    else stats.(success := stats.success + 1)
  }

  /** The counters after the results `outs` of a batch of `total` files. */
  function TallyOf(total: nat, outs: seq<RetryResult>): (s: UploadStats)
    ensures s.total == total
    ensures s.success + s.failed + s.duplicates == |outs|
  {
    if outs == [] then UploadStats(total, 0, 0, 0)
    else Count(TallyOf(total, outs[..|outs| - 1]), outs[|outs| - 1])
  }

  /** No failure is counted exactly when every file of the batch was
      uploaded or found to be a duplicate. */
  lemma {:induction false} NoFailureIffAllUploaded(total: nat, outs: seq<RetryResult>)
    ensures TallyOf(total, outs).failed == 0 <==> forall j :: 0 <= j < |outs| ==> outs[j].success
  {
    if outs != [] {
      var init := outs[..|outs| - 1];
      NoFailureIffAllUploaded(total, init);
      assert forall j :: 0 <= j < |init| ==> init[j] == outs[j];
    }
  }

  /** `results[file_path] = success`, in order, a later file of the same path
      overwriting an earlier one. */
  function ResultsMap(jobs: seq<UploadJob>, outs: seq<RetryResult>): map<string, bool>
    requires |outs| == |jobs|
  {
    if jobs == [] then map[]
    else ResultsMap(jobs[..|jobs| - 1], outs[..|outs| - 1])[jobs[|jobs| - 1].path := outs[|outs| - 1].success]
  }

  /** The results have one entry per path of the batch. */
  lemma {:induction false} ResultsMapKeys(jobs: seq<UploadJob>, outs: seq<RetryResult>)
    requires |outs| == |jobs|
    ensures forall p :: p in ResultsMap(jobs, outs) <==> exists j :: 0 <= j < |jobs| && jobs[j].path == p
  {
    if jobs != [] {
      var init := jobs[..|jobs| - 1];
      ResultsMapKeys(init, outs[..|outs| - 1]);
      forall p ensures p in ResultsMap(jobs, outs) <==> exists j :: 0 <= j < |jobs| && jobs[j].path == p {
        if p in ResultsMap(init, outs[..|outs| - 1]) {
          var j :| 0 <= j < |init| && init[j].path == p;
          assert jobs[j].path == p;
        }
        if exists j :: 0 <= j < |jobs| && jobs[j].path == p {
          var j :| 0 <= j < |jobs| && jobs[j].path == p;
          if j < |init| {
            assert init[j].path == p;
          }
        }
      }
    }
  }

  /** A path's entry holds the result of its last occurrence in the batch. */
  lemma {:induction false} ResultsMapLastOccurrence(jobs: seq<UploadJob>, outs: seq<RetryResult>, j: nat)
    requires |outs| == |jobs| && j < |jobs|
    requires forall l :: j < l < |jobs| ==> jobs[l].path != jobs[j].path
    ensures jobs[j].path in ResultsMap(jobs, outs)
    ensures ResultsMap(jobs, outs)[jobs[j].path] == outs[j].success
  {
    if j < |jobs| - 1 {
      var init := jobs[..|jobs| - 1];
      var initOuts := outs[..|outs| - 1];
      assert init[j] == jobs[j] && initOuts[j] == outs[j];
      ResultsMapLastOccurrence(init, initOuts, j);
    }
  }

  /** The scanned file whose path is `path` (the `next(...)` over
      `scan_files_async()`). */
  function FirstWithPath(catalog: seq<FileInfo>, path: string): (r: Option<FileInfo>)
    ensures r.Some? ==> r.value in catalog && r.value.path == path
    ensures r.None? ==> forall i :: 0 <= i < |catalog| ==> catalog[i].path != path
  {
    if catalog == [] then None
    else if catalog[0].path == path then Some(catalog[0])
    else FirstWithPath(catalog[1..], path)
  }

  /** The ledger after a batch: an entry is written for each uploaded file
      (new or duplicate) that the scan lists. */
  function LedgerAfter(entries: map<string, Json>, jobs: seq<UploadJob>, outs: seq<RetryResult>, catalog: seq<FileInfo>): map<string, Json>
    requires |outs| == |jobs|
  {
    if jobs == [] then entries
    else
      var before := LedgerAfter(entries, jobs[..|jobs| - 1], outs[..|outs| - 1], catalog);
      var job := jobs[|jobs| - 1];
      var info := FirstWithPath(catalog, job.path);
      if outs[|outs| - 1].success && info.Some? then before[FileKey(info.value) := ProcessedEntry(info.value, job.markedAt)]
      else before
  }

  /** Every uploaded file that the scan lists is found processed after the
      batch, and a batch without a success leaves the ledger as it was. */
  lemma {:induction false} LedgerRecordsUploads(entries: map<string, Json>, jobs: seq<UploadJob>, outs: seq<RetryResult>, catalog: seq<FileInfo>)
    requires |outs| == |jobs|
    ensures entries.Keys <= LedgerAfter(entries, jobs, outs, catalog).Keys
    ensures forall j :: 0 <= j < |jobs| && outs[j].success && FirstWithPath(catalog, jobs[j].path).Some? ==>
              var info := FirstWithPath(catalog, jobs[j].path).value;
              FileKey(info) in LedgerAfter(entries, jobs, outs, catalog) &&
              IsFileProcessed(LedgerAfter(entries, jobs, outs, catalog), info)
    ensures (forall j :: 0 <= j < |jobs| ==> !outs[j].success) ==> LedgerAfter(entries, jobs, outs, catalog) == entries
  {
    if jobs != [] {
      var init := jobs[..|jobs| - 1];
      var initOuts := outs[..|outs| - 1];
      LedgerRecordsUploads(entries, init, initOuts, catalog);
      var before := LedgerAfter(entries, init, initOuts, catalog);
      var after := LedgerAfter(entries, jobs, outs, catalog);
      assert before.Keys <= after.Keys;
      forall j | 0 <= j < |jobs| && outs[j].success && FirstWithPath(catalog, jobs[j].path).Some?
        ensures FileKey(FirstWithPath(catalog, jobs[j].path).value) in after
      {
        if j < |init| {
          assert init[j] == jobs[j] && initOuts[j] == outs[j];
        }
      }
    }
  }

  /** How each batch summary grows by one file. */
  lemma BatchStep(connected: bool, jobs: seq<UploadJob>, maxRetries: nat, i: nat,
                  outs: seq<RetryResult>, r: RetryResult, entries: map<string, Json>, catalog: seq<FileInfo>)
    requires i < |jobs| && |outs| == i
    ensures var init, next := jobs[..i], jobs[..i + 1];
      var c := ConnectedAfter(connected, init, maxRetries);
      && RunAll(connected, next, maxRetries) == RunAll(connected, init, maxRetries) + [Retry(c, jobs[i], maxRetries)]
      && ConnectedAfter(connected, next, maxRetries) == (c && !Retry(c, jobs[i], maxRetries).unauthorized)
      && TallyOf(|jobs|, outs + [r]) == Count(TallyOf(|jobs|, outs), r)
      && ResultsMap(next, outs + [r]) == ResultsMap(init, outs)[jobs[i].path := r.success]
      && LedgerAfter(entries, next, outs + [r], catalog) ==
           (var info := FirstWithPath(catalog, jobs[i].path);
            var before := LedgerAfter(entries, init, outs, catalog);
            if r.success && info.Some? then before[FileKey(info.value) := ProcessedEntry(info.value, jobs[i].markedAt)]
            else before)
  {
    assert jobs[..i + 1][..i] == jobs[..i];
    assert (outs + [r])[..i] == outs;
  }

  /** The uploader's share of the application state: the connection flag of
      the authentication manager and `_upload_stats`. */
  class GarminUploader {
    var connected: bool
    var stats: UploadStats

    constructor (connected: bool)
      ensures this.connected == connected
      ensures stats == UploadStats(0, 0, 0, 0)
    {
      this.connected := connected;
      stats := UploadStats(0, 0, 0, 0);
    }

    /** `_upload_file_with_retry`: the `for attempt in range(max_retries)` loop
        with its early returns. */
    method UploadFileWithRetry(job: UploadJob, maxRetries: nat) returns (r: RetryResult)
      modifies this
      ensures r == Retry(old(connected), job, maxRetries)
      ensures connected == (old(connected) && !r.unauthorized)
      ensures stats == old(stats)
    {
      if !job.readable {
        return RetryResult(false, false, 0, [], false);
      }
      ghost var spec := RetryFrom(connected, job.script, maxRetries, 0);
      var waits: seq<nat> := [];
      assert spec == Prefixed(waits, spec);
      for attempt := 0 to maxRetries
        invariant connected == old(connected)
        invariant stats == old(stats)
        invariant spec == Prefixed(waits, RetryFrom(connected, job.script, maxRetries, attempt))
      {
        ghost var rest := RetryFrom(connected, job.script, maxRetries, attempt + 1);
        var a := AttemptAt(job.script, attempt);
        if !connected || !a.sessionRefreshed {
          return RetryResult(false, false, attempt + 1, waits, false);
        }
        if a.outcome.Uploaded? {
          return RetryResult(true, false, attempt + 1, waits, false);
        }
        var kind := Classify(a.outcome.message);
        if kind == Duplicate {
          return RetryResult(true, true, attempt + 1, waits, false);
        }
        if kind == Unauthorized {
          connected := false;
          return RetryResult(false, false, attempt + 1, waits, true);
        }
        var wait := Backoff(kind, attempt, maxRetries);
        if wait.Some? {
          PrefixedAfter(waits, wait.value, rest);
          waits := waits + [wait.value];
        }
      }
      r := RetryResult(false, false, maxRetries, waits, false);
    }

    /** `upload_files`, one file after the other in list order: nothing
        happens for an empty list; otherwise the counters restart at the
        batch size and zero, each file lands in one counter, and each
        uploaded file the scan lists is recorded in the live ledger in place,
        leaving the store's dirty flag and pending save as they were. */
    method UploadFiles(jobs: seq<UploadJob>, maxRetries: nat, store: ConfigStore, catalog: seq<FileInfo>)
      returns (results: map<string, bool>)
      requires store.Valid()
      modifies this, store, store.ledger
      ensures store.Valid() && store.values == old(store.values) && store.disk == old(store.disk)
      ensures store.ledger == old(store.ledger)
      ensures store.dirty == old(store.dirty) && store.autoSavePending == old(store.autoSavePending)
      ensures jobs == [] ==>
        results == map[] && store.ledger.entries == old(store.ledger.entries) && connected == old(connected) &&
        stats == old(stats)
      ensures jobs != [] ==>
        var outs := RunAll(old(connected), jobs, maxRetries);
        && stats == TallyOf(|jobs|, outs)
        && stats.success + stats.duplicates + stats.failed == stats.total
        && connected == ConnectedAfter(old(connected), jobs, maxRetries)
        && results == ResultsMap(jobs, outs)
        && store.ledger.entries == LedgerAfter(old(store.ledger.entries), jobs, outs, catalog)
    {
      if jobs == [] {
        return map[];
      }
      results := UploadBatch(jobs, maxRetries, store, catalog);
    }

    /** One file of `upload_files`: its upload with retries, the counter it
        lands in, and its ledger entry when it was uploaded and the scan lists
        it. The entry goes into the live ledger in place, so the store stays
        as clean as it was and no save is scheduled. */
    method UploadOne(job: UploadJob, maxRetries: nat, store: ConfigStore, catalog: seq<FileInfo>)
      returns (r: RetryResult)
      requires store.Valid()
      modifies this, store, store.ledger
      ensures r == Retry(old(connected), job, maxRetries)
      ensures connected == (old(connected) && !r.unauthorized)
      ensures stats == Count(old(stats), r)
      ensures store.Valid() && store.values == old(store.values) && store.disk == old(store.disk)
      ensures store.ledger == old(store.ledger)
      ensures store.dirty == old(store.dirty) && store.autoSavePending == old(store.autoSavePending)
      ensures var info := FirstWithPath(catalog, job.path);
        store.ledger.entries ==
          if r.success && info.Some? then old(store.ledger.entries)[FileKey(info.value) := ProcessedEntry(info.value, job.markedAt)]
          else old(store.ledger.entries)
    {
      r := UploadFileWithRetry(job, maxRetries);
      stats := Count(stats, r);
      var info := FirstWithPath(catalog, job.path);
      if r.success && info.Some? {
        MarkFileProcessedInPlace(store, info.value, job.markedAt);
      }
    }

    /** The part of `upload_files` after the empty-list test. */
    method UploadBatch(jobs: seq<UploadJob>, maxRetries: nat, store: ConfigStore, catalog: seq<FileInfo>)
      returns (results: map<string, bool>)
      requires store.Valid()
      modifies this, store, store.ledger
      ensures store.Valid() && store.values == old(store.values) && store.disk == old(store.disk)
      ensures store.ledger == old(store.ledger)
      ensures store.dirty == old(store.dirty) && store.autoSavePending == old(store.autoSavePending)
      ensures var outs := RunAll(old(connected), jobs, maxRetries);
        && stats == TallyOf(|jobs|, outs)
        && connected == ConnectedAfter(old(connected), jobs, maxRetries)
        && results == ResultsMap(jobs, outs)
        && store.ledger.entries == LedgerAfter(old(store.ledger.entries), jobs, outs, catalog)
    {
      stats := UploadStats(|jobs|, 0, 0, 0);
      results := map[];
      ghost var c0 := connected;
      ghost var l0 := store.ledger.entries;
      ghost var outs: seq<RetryResult> := [];
      for i := 0 to |jobs|
        invariant store.Valid() && store.values == old(store.values) && store.disk == old(store.disk)
        invariant store.ledger == old(store.ledger)
        invariant store.dirty == old(store.dirty) && store.autoSavePending == old(store.autoSavePending)
        invariant |outs| == i
        invariant outs == RunAll(c0, jobs[..i], maxRetries)
        invariant connected == ConnectedAfter(c0, jobs[..i], maxRetries)
        invariant stats == TallyOf(|jobs|, outs)
        invariant results == ResultsMap(jobs[..i], outs)
        invariant store.ledger.entries == LedgerAfter(l0, jobs[..i], outs, catalog)
      {
        var r := UploadOne(jobs[i], maxRetries, store, catalog);
        BatchStep(c0, jobs, maxRetries, i, outs, r, l0, catalog);
        results := results[jobs[i].path := r.success];
        outs := outs + [r];
      }
      assert jobs[..|jobs|] == jobs;
    }
  }
}
