/**
 Result codes, jobs as the device sees them, and the mapping of job statuses to
 result codes (umd/level_zero_driver/source/device.hpp).  A job object may be
 submitted many times; the log keeps every submission ever made to the device.
 */
module Jobs {

  datatype ZeResult =
    | Success
    | NotReady
    | DeviceLost
    | Unknown
    | Uninitialized
    | NotAvailable
    | InvalidNullPointer
    | InvalidNullHandle
    | InvalidSize
    | InvalidArgument
    | InvalidSynchronizationObject
    | OutOfDeviceMemory
    | UnsupportedFeature
    | DependencyUnavailable
    | ObjectInUse

  type ZeError = r: ZeResult | r != Success witness Unknown

  datatype Option<+T> = None | Some(value: T)

  const STATUS_SUCCESS: nat := 0
  const STATUS_ABORTED: nat := 256

  type JobId = nat

  datatype JobState = Pending | Done(status: nat)

  datatype Submission = Submission(job: JobId, state: JobState)

  type Log = seq<Submission>

  const COMPLETED := Done(STATUS_SUCCESS)

  // ------------------------------------------------------------ the device's progress

  /** Between two moments the device completes some pending submissions, nothing else. */
  ghost predicate Progress(a: Log, b: Log)
  {
    && |a| == |b|
    && forall k :: 0 <= k < |a| ==> a[k].job == b[k].job && (a[k].state.Done? ==> a[k] == b[k])
  }

  /** b is a after the device was given the jobs js, in order, and made any progress. */
  ghost predicate Submitted(a: Log, js: seq<JobId>, b: Log)
  {
    && |b| == |a| + |js|
    && Progress(a, b[..|a|])
    && forall i :: 0 <= i < |js| ==> b[|a| + i].job == js[i]
  }

  /** Position of the most recent submission of j, or -1. */
  function LatestIndex(log: Log, j: JobId): (r: int)
    ensures -1 <= r < |log|
    ensures r >= 0 ==> log[r].job == j
    ensures forall m :: r < m < |log| ==> log[m].job != j
  {
    if log == [] then -1
    else if log[|log| - 1].job == j then |log| - 1
    else LatestIndex(log[..|log| - 1], j)
  }

  ghost predicate IsLatest(log: Log, k: nat)
  {
    k < |log| && LatestIndex(log, log[k].job) == k
  }

  /** What waiting on a job object and reading its status observe: its latest submission. */
  predicate IsPending(log: Log, j: JobId)
  {
    LatestIndex(log, j) >= 0 && log[LatestIndex(log, j)].state.Pending?
  }

  function StatusOf(log: Log, j: JobId): (s: nat)
    requires !IsPending(log, j)
  {
    if LatestIndex(log, j) < 0 then STATUS_SUCCESS else log[LatestIndex(log, j)].state.status
  }

  ghost predicate Succeeded(log: Log, j: JobId)
  {
    !IsPending(log, j) && StatusOf(log, j) == STATUS_SUCCESS
  }

  ghost predicate AllSucceeded(log: Log, js: seq<JobId>)
  {
    forall j :: j in js ==> Succeeded(log, j)
  }

  lemma LatestUnique(log: Log, j: JobId, k: int)
    requires -1 <= k < |log| && (k >= 0 ==> log[k].job == j)
    requires forall m :: k < m < |log| ==> log[m].job != j
    ensures LatestIndex(log, j) == k
  {
  }

  lemma LatestProgress(a: Log, b: Log, j: JobId)
    requires Progress(a, b)
    ensures LatestIndex(a, j) == LatestIndex(b, j)
  {
    LatestUnique(b, j, LatestIndex(a, j));
  }

  /** A success once observed stays, whatever the device does next. */
  lemma SuccessStable(a: Log, b: Log, j: JobId)
    requires Progress(a, b) && Succeeded(a, j)
    ensures Succeeded(b, j)
  {
    LatestProgress(a, b, j);
  }

  lemma ProgressTrans(a: Log, b: Log, c: Log)
    requires Progress(a, b) && Progress(b, c)
    ensures Progress(a, c)
  {
    forall k | 0 <= k < |a|
      ensures a[k].job == c[k].job && (a[k].state.Done? ==> a[k] == c[k])
    {
      assert a[k].job == b[k].job && b[k].job == c[k].job;
    }
  }

  lemma LatestAfterSubmit(a: Log, js: seq<JobId>, b: Log, j: JobId)
    requires Submitted(a, js, b) && j !in js
    ensures LatestIndex(b, j) == LatestIndex(a, j)
  {
    forall m | LatestIndex(a, j) < m < |b|
      ensures b[m].job != j
    {
      if m < |a| { assert b[..|a|][m].job == a[m].job; } else { assert b[m].job == js[m - |a|]; }
    }
    var r := LatestIndex(a, j);
    assert r >= 0 ==> b[..|a|][r].job == a[r].job;
    LatestUnique(b, j, r);
  }

  // ------------------------------------------------------------- statuses to a result

  /** Device::jobStatusToResult on the statuses of the jobs, in order. */
  function StatusToResult(statuses: seq<nat>): (r: ZeResult)
  {
    if statuses == [] then Success
    else if statuses[0] == STATUS_SUCCESS then StatusToResult(statuses[1..])
    else if statuses[0] == STATUS_ABORTED then DeviceLost
    else Unknown
  }

  /** Success exactly when every status is success; otherwise the first failure decides. */
  lemma {:induction false} FirstFailureDecides(statuses: seq<nat>)
    ensures StatusToResult(statuses) == Success <==> forall i :: 0 <= i < |statuses| ==> statuses[i] == STATUS_SUCCESS
    ensures StatusToResult(statuses) in {Success, DeviceLost, Unknown}
    ensures forall i :: 0 <= i < |statuses| && statuses[i] != STATUS_SUCCESS
              && (forall k :: 0 <= k < i ==> statuses[k] == STATUS_SUCCESS)
              ==> StatusToResult(statuses) == (if statuses[i] == STATUS_ABORTED then DeviceLost else Unknown)
  {
    if statuses != [] && statuses[0] == STATUS_SUCCESS {
      var rest := statuses[1..];
      FirstFailureDecides(rest);
      assert forall i :: 0 <= i < |rest| ==> rest[i] == statuses[i + 1];
      assert forall i :: 0 < i < |statuses| ==> statuses[i] == rest[i - 1];
    }
  }
}
