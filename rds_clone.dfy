/** clone-rds-snapshot.py: bounded status polling, the guard against touching the original
    account's instance, the snapshot name and the fixed order of the steps of `main`.
    Every RDS or STS call is an input: `describe` answers the n-th describe call of a wait loop,
    and the environment says which plain calls raise. */
module RdsClone {
  import opened Wrappers
  import opened Strings

  /** The not-found faults of the RDS client. */
  datatype Fault = DBInstanceNotFound | DBSnapshotNotFound

  /** Answer of one describe call: the described resource's fields, or a fault. */
  datatype Describe = Described(fields: map<string, string>) | Faulted(fault: Fault)

  /** How a wait function ends: it returns a value or an exception escapes it. */
  datatype WaitOutcome =
    | Returned(value: bool)
    | StatusTimeout         // the `RuntimeError` raised once the attempts are used up
    | Raised(fault: Fault)  // a fault the function re-raises or does not catch
    | FieldMissing          // the status field is absent: `KeyError`

  /** A poll that shows the resource in some other status than the awaited one. */
  predicate Mismatch(d: Describe, field: string, status: string) {
    d.Described? && field in d.fields && d.fields[field] != status
  }

  /** Largest number of describe calls a wait with this `wait_time` makes: it raises as soon as
      `attempts > wait_time * 2`, so it polls for attempts 0 to `wait_time * 2`. */
  function PollBound(waitTime: int): nat {
    if waitTime * 2 >= 0 then waitTime * 2 + 1 else 0
  }

  /** A poll that ends the wait with `True`: the awaited status, or the `caught` fault while
      'deleted' is awaited. */
  predicate Succeeds(d: Describe, field: string, caught: Fault, status: string) {
    (d.Described? && field in d.fields && d.fields[field] == status)
    || (d == Faulted(caught) && status == "deleted")
  }

  /** Poll `n` is the first that does not show another status. */
  predicate FirstStopAt(describe: nat -> Describe, field: string, status: string, n: nat) {
    (forall i :: 0 <= i < n ==> Mismatch(describe(i), field, status)) && !Mismatch(describe(n), field, status)
  }

  /** The wait returns `True`: within the poll bound, the first poll that does not show
      another status is a successful one. */
  ghost predicate WaitSucceeds(describe: nat -> Describe, field: string, caught: Fault, status: string, waitTime: int) {
    exists n: nat :: n < PollBound(waitTime) && FirstStopAt(describe, field, status, n)
                     && Succeeds(describe(n), field, caught, status)
  }

  /** The first poll that does not show another status decides the wait. */
  lemma FirstStopDecides(describe: nat -> Describe, field: string, caught: Fault, status: string, waitTime: int, k: nat)
    requires k < PollBound(waitTime) && FirstStopAt(describe, field, status, k)
    ensures WaitSucceeds(describe, field, caught, status, waitTime) <==> Succeeds(describe(k), field, caught, status)
  {
    forall n: nat | FirstStopAt(describe, field, status, n)
      ensures n == k
    {
    }
  }

  /** When every poll within the bound shows another status, the wait does not return `True`. */
  lemma AllMismatchFails(describe: nat -> Describe, field: string, caught: Fault, status: string, waitTime: int)
    requires forall i :: 0 <= i < PollBound(waitTime) ==> Mismatch(describe(i), field, status)
    ensures !WaitSucceeds(describe, field, caught, status, waitTime)
  {
    forall n: nat | n < PollBound(waitTime)
      ensures !FirstStopAt(describe, field, status, n)
    {
    }
  }

  /** The loop shared by `wait_instance_status` and `wait_snapshot_status`: poll, compare the
      status `field` with `status`, count each mismatch as one attempt; a `caught` fault means
      success when the awaited status is 'deleted' and is re-raised otherwise. */
  method WaitForStatus(describe: nat -> Describe, field: string, caught: Fault, status: string, waitTime: int)
    returns (r: WaitOutcome, calls: nat)
    ensures r != Returned(false)
    ensures calls <= PollBound(waitTime)
    ensures r == StatusTimeout <==> calls == PollBound(waitTime) && forall i :: 0 <= i < calls ==> Mismatch(describe(i), field, status)
    ensures r != StatusTimeout ==> calls >= 1 && FirstStopAt(describe, field, status, calls - 1)
    ensures r == Returned(true) <==> WaitSucceeds(describe, field, caught, status, waitTime)
    ensures r == Returned(true) ==> Succeeds(describe(calls - 1), field, caught, status)
    ensures r.Raised? ==>
              calls >= 1 && describe(calls - 1) == Faulted(r.fault) && (r.fault != caught || status != "deleted")
    ensures r == FieldMissing ==> calls >= 1 && describe(calls - 1).Described? && field !in describe(calls - 1).fields
  {
    var maxAttempts := waitTime * 2;
    var attempts := 0;
    while attempts <= maxAttempts
      invariant 0 <= attempts <= PollBound(waitTime)
      invariant forall i :: 0 <= i < attempts ==> Mismatch(describe(i), field, status)
      decreases maxAttempts - attempts
    {
      var d := describe(attempts);
      if !Mismatch(d, field, status) {
        FirstStopDecides(describe, field, caught, status, waitTime, attempts);
      }
      match d {
        case Faulted(fault) =>
          if fault == caught && status == "deleted" {
            return Returned(true), attempts + 1;
          }
          return Raised(fault), attempts + 1;
        case Described(fields) =>
          if field !in fields {
            return FieldMissing, attempts + 1;
          }
          if fields[field] == status {
            return Returned(true), attempts + 1;
          }
          attempts := attempts + 1;
      }
    }
    AllMismatchFails(describe, field, caught, status, waitTime);
    return StatusTimeout, attempts;
  }

  /** A wait that ends as the contract of `WaitForStatus` says stops at the first poll that does
      not show another status, whichever poll within the bound that is. */
  lemma StopsAtFirstStop(describe: nat -> Describe, field: string, status: string, waitTime: int, r: WaitOutcome, calls: nat)
    requires calls <= PollBound(waitTime)
    requires r == StatusTimeout <==> calls == PollBound(waitTime) && forall i :: 0 <= i < calls ==> Mismatch(describe(i), field, status)
    requires r != StatusTimeout ==> calls >= 1 && FirstStopAt(describe, field, status, calls - 1)
    ensures forall k: nat :: k < PollBound(waitTime) && FirstStopAt(describe, field, status, k) ==>
              r != StatusTimeout && calls == k + 1
  {
    forall k: nat | k < PollBound(waitTime) && FirstStopAt(describe, field, status, k)
      ensures r != StatusTimeout && calls == k + 1
    {
    }
  }

  /** `wait_instance_status`: polls `DBInstanceStatus`, catching `DBInstanceNotFoundFault`. */
  method WaitInstanceStatus(describe: nat -> Describe, status: string, waitTime: int)
    returns (r: WaitOutcome, calls: nat)
    ensures r != Returned(false) && calls <= PollBound(waitTime)
    ensures r == StatusTimeout <==>
              calls == PollBound(waitTime) && forall i :: 0 <= i < calls ==> Mismatch(describe(i), "DBInstanceStatus", status)
    ensures r != StatusTimeout ==> calls >= 1 && FirstStopAt(describe, "DBInstanceStatus", status, calls - 1)
    ensures r == Returned(true) <==> WaitSucceeds(describe, "DBInstanceStatus", DBInstanceNotFound, status, waitTime)
    ensures r.Raised? ==> describe(calls - 1) == Faulted(r.fault) && (r.fault != DBInstanceNotFound || status != "deleted")
    ensures r == FieldMissing ==>
              calls >= 1 && describe(calls - 1).Described? && "DBInstanceStatus" !in describe(calls - 1).fields
    ensures forall k: nat :: k < PollBound(waitTime) && FirstStopAt(describe, "DBInstanceStatus", status, k)
                             && describe(k).Faulted? ==>
              calls == k + 1
              && if describe(k).fault == DBInstanceNotFound && status == "deleted" then r == Returned(true)
                 else r == Raised(describe(k).fault)
  {
    r, calls := WaitForStatus(describe, "DBInstanceStatus", DBInstanceNotFound, status, waitTime);
    StopsAtFirstStop(describe, "DBInstanceStatus", status, waitTime, r, calls);
  }

  /** `wait_snapshot_status` as written: polls the snapshot's `Status`, but catches
      `DBInstanceNotFoundFault`, which describing a snapshot never raises; a vanished snapshot
      raises `DBSnapshotNotFoundFault` even when 'deleted' is awaited. */
  method WaitSnapshotStatus(describe: nat -> Describe, status: string, waitTime: int)
    returns (r: WaitOutcome, calls: nat)
    ensures r != Returned(false) && calls <= PollBound(waitTime)
    ensures r == StatusTimeout <==>
              calls == PollBound(waitTime) && forall i :: 0 <= i < calls ==> Mismatch(describe(i), "Status", status)
    ensures r != StatusTimeout ==> calls >= 1 && FirstStopAt(describe, "Status", status, calls - 1)
    ensures r == Returned(true) <==> WaitSucceeds(describe, "Status", DBInstanceNotFound, status, waitTime)
    ensures r.Raised? ==> describe(calls - 1) == Faulted(r.fault) && (r.fault != DBInstanceNotFound || status != "deleted")
    ensures r == FieldMissing ==> calls >= 1 && describe(calls - 1).Described? && "Status" !in describe(calls - 1).fields
    ensures forall k: nat :: k < PollBound(waitTime) && FirstStopAt(describe, "Status", status, k)
                             && describe(k) == Faulted(DBSnapshotNotFound) ==>
              r == Raised(DBSnapshotNotFound) && calls == k + 1
  {
    r, calls := WaitForStatus(describe, "Status", DBInstanceNotFound, status, waitTime);
    StopsAtFirstStop(describe, "Status", status, waitTime, r, calls);
  }

  /** `wait_snapshot_status` catching the snapshot's own not-found fault, so that awaiting
      'deleted' succeeds once the snapshot is gone; for any other awaited status it behaves
      exactly like the version as written. */
  method WaitSnapshotStatusCorrected(describe: nat -> Describe, status: string, waitTime: int)
    returns (r: WaitOutcome, calls: nat)
    ensures r != Returned(false) && calls <= PollBound(waitTime)
    ensures r == StatusTimeout <==>
              calls == PollBound(waitTime) && forall i :: 0 <= i < calls ==> Mismatch(describe(i), "Status", status)
    ensures r != StatusTimeout ==> calls >= 1 && FirstStopAt(describe, "Status", status, calls - 1)
    ensures r == Returned(true) <==> WaitSucceeds(describe, "Status", DBSnapshotNotFound, status, waitTime)
    ensures r.Raised? ==> describe(calls - 1) == Faulted(r.fault) && (r.fault != DBSnapshotNotFound || status != "deleted")
    ensures r == FieldMissing ==> calls >= 1 && describe(calls - 1).Described? && "Status" !in describe(calls - 1).fields
    ensures forall k: nat :: k < PollBound(waitTime) && FirstStopAt(describe, "Status", status, k)
                             && describe(k) == Faulted(DBSnapshotNotFound) ==>
              calls == k + 1 && if status == "deleted" then r == Returned(true) else r == Raised(DBSnapshotNotFound)
  {
    r, calls := WaitForStatus(describe, "Status", DBSnapshotNotFound, status, waitTime);
    StopsAtFirstStop(describe, "Status", status, waitTime, r, calls);
  }

  /** `is_orig`: the instance belongs to the original account when the account id occurs
      anywhere in its ARN. */
  function IsOrig(origAccount: string, instanceArn: string): (r: bool)
    ensures r <==> exists i :: OccursAt(instanceArn, origAccount, i)
  {
    ContainsIffOccurs(instanceArn, origAccount);
    Contains(instanceArn, origAccount)
  }

  /** The RDS calls that change something. */
  datatype RdsCall =
    | ModifyDbInstance(instanceId: string, masterUserPassword: string)
    | DeleteDbInstance(instanceId: string, skipFinalSnapshot: bool)

  /** `change_master_password`: raises `ValueError` (the `Failure`) without modifying anything when
      the instance is the original account's; otherwise issues the password change. */
  function ChangeMasterPassword(origAccount: string, instanceArn: string, instanceId: string, password: string)
    : (r: Result<RdsCall, string>)
    ensures r.Failure? <==> exists i :: OccursAt(instanceArn, origAccount, i)
    ensures r.Success? ==> r.value == ModifyDbInstance(instanceId, password)
  {
    if IsOrig(origAccount, instanceArn) then Failure("Do not try to modify production instances!")
    else Success(ModifyDbInstance(instanceId, password))
  }

  /** `delete_db_instance`: the same guard, then a deletion without a final snapshot. */
  function DeleteDbInstanceCall(origAccount: string, instanceArn: string, instanceId: string)
    : (r: Result<RdsCall, string>)
    ensures r.Failure? <==> exists i :: OccursAt(instanceArn, origAccount, i)
    ensures r.Success? ==> r.value == DeleteDbInstance(instanceId, true)
  {
    if IsOrig(origAccount, instanceArn) then Failure("Do not try to modify production instances!")
    else Success(DeleteDbInstance(instanceId, true))
  }

  /** `SNAPSHOT_NAME`: the original instance id, a dash, then the epoch seconds in decimal. */
  function SnapshotName(instanceId: string, epoch: nat): (name: string)
    ensures |name| > |instanceId| + 1
    ensures name[..|instanceId|] == instanceId && name[|instanceId|] == '-'
    ensures forall i :: |instanceId| < i < |name| ==> IsDigit(name[i])
  {
    instanceId + "-" + Decimal(epoch)
  }

  /** The epoch can be read back from the snapshot name. */
  lemma SnapshotNameEpoch(instanceId: string, epoch: nat)
    ensures var name := SnapshotName(instanceId, epoch);
            var digits := name[|instanceId| + 1..];
            (forall i :: 0 <= i < |digits| ==> IsDigit(digits[i])) && ParseDecimal(digits) == epoch
  {
    var name := SnapshotName(instanceId, epoch);
    assert name[|instanceId| + 1..] == Decimal(epoch);
    ParseDecimalOfDecimal(epoch);
  }

  /** The calls of `main`, in program order. */
  datatype Step =
    | AssumeRole | DescribeClone | CreateSnapshot | WaitSnapshotAvailable | ShareSnapshot
    | DeleteClone | WaitCloneDeleted | DescribeSnapshot | RestoreClone | WaitCloneAvailable
    | ChangePassword | DeleteSnapshot

  const Plan: seq<Step> := [
    AssumeRole, DescribeClone, CreateSnapshot, WaitSnapshotAvailable, ShareSnapshot,
    DeleteClone, WaitCloneDeleted, DescribeSnapshot, RestoreClone, WaitCloneAvailable,
    ChangePassword, DeleteSnapshot]

  /** What `main` meets: the original account id, the clone's id, ARN (as `is_orig` reads it)
      and new password, the plain calls that raise, and the answers the three wait loops get. */
  datatype Env = Env(
    origAccount: string, cloneInstanceId: string, cloneArn: string, clonePassword: string,
    raising: set<Step>,
    snapshotPolls: nat -> Describe, deletedPolls: nat -> Describe, availablePolls: nat -> Describe)

  /** Whether a step of `main` completes without an exception: a wait exactly when it returns
      `True`, a guarded call exactly when the clone is not the original account's instance and
      the call itself does not raise, any other call exactly when it does not raise. */
  ghost predicate StepSucceeds(env: Env, step: Step) {
    match step
    case WaitSnapshotAvailable => WaitSucceeds(env.snapshotPolls, "Status", DBInstanceNotFound, "available", 5)
    case WaitCloneDeleted => WaitSucceeds(env.deletedPolls, "DBInstanceStatus", DBInstanceNotFound, "deleted", 5)
    case WaitCloneAvailable => WaitSucceeds(env.availablePolls, "DBInstanceStatus", DBInstanceNotFound, "available", 20)
    case DeleteClone => !IsOrig(env.origAccount, env.cloneArn) && step !in env.raising
    case ChangePassword => !IsOrig(env.origAccount, env.cloneArn) && step !in env.raising
    case _ => step !in env.raising
  }

  /** Runs one step of `main`; `ok == false` means an exception escaped it. */
  method RunStep(env: Env, step: Step) returns (ok: bool)
    ensures ok <==> StepSucceeds(env, step)
  {
    match step {
      case WaitSnapshotAvailable =>
        var r, _ := WaitSnapshotStatus(env.snapshotPolls, "available", 5);
        ok := r == Returned(true);
      case WaitCloneDeleted =>
        var r, _ := WaitInstanceStatus(env.deletedPolls, "deleted", 5);
        ok := r == Returned(true);
      case WaitCloneAvailable =>
        var r, _ := WaitInstanceStatus(env.availablePolls, "available", 20);
        ok := r == Returned(true);
      case DeleteClone =>
        var call := DeleteDbInstanceCall(env.origAccount, env.cloneArn, env.cloneInstanceId);
        ok := call.Success? && step !in env.raising;
      case ChangePassword =>
        var call := ChangeMasterPassword(env.origAccount, env.cloneArn, env.cloneInstanceId, env.clonePassword);
        ok := call.Success? && step !in env.raising;
      case _ =>
        ok := step !in env.raising;
    }
  }

  /** `main`: the steps run in `Plan` order and the first exception stops everything after it.
      A wait never returns False, so its `if` never skips the step it guards. */
  method CloneDatabase(env: Env) returns (done: seq<Step>, failedAt: Option<Step>)
    ensures |done| <= |Plan| && done == Plan[..|done|]
    ensures failedAt == None <==> done == Plan
    ensures failedAt.Some? ==> |done| < |Plan| && failedAt.value == Plan[|done|]
    ensures DeleteClone in done || ChangePassword in done ==> !IsOrig(env.origAccount, env.cloneArn)
    ensures IsOrig(env.origAccount, env.cloneArn) ==> failedAt == Some(DeleteClone) || |done| < 5
    ensures DeleteSnapshot in done ==> done == Plan
    ensures forall i :: 0 <= i < |done| ==> StepSucceeds(env, done[i])
    ensures failedAt.Some? ==> !StepSucceeds(env, failedAt.value)
  {
    done := [];
    failedAt := None;
    for i := 0 to |Plan|
      invariant done == Plan[..i]
      invariant forall j :: 0 <= j < i ==> StepSucceeds(env, done[j])
      invariant i > 5 ==> !IsOrig(env.origAccount, env.cloneArn)
      invariant DeleteClone in done || ChangePassword in done ==> i > 5
    {
      var ok := RunStep(env, Plan[i]);
      if !ok {
        failedAt := Some(Plan[i]);
        assert DeleteClone in done || ChangePassword in done ==> i > 5;
        return;
      }
      done := done + [Plan[i]];
      assert Plan[i] == DeleteClone ==> i == 5;
      assert Plan[i] == ChangePassword ==> i == 10;
    }
  }

  /** When no call raises, the clone is not the original account's instance and every wait
      returns `True`, `main` completes every step. */
  lemma {:induction false} AllStepsSucceed(env: Env, step: Step)
    requires env.raising == {} && !IsOrig(env.origAccount, env.cloneArn)
    requires WaitSucceeds(env.snapshotPolls, "Status", DBInstanceNotFound, "available", 5)
    requires WaitSucceeds(env.deletedPolls, "DBInstanceStatus", DBInstanceNotFound, "deleted", 5)
    requires WaitSucceeds(env.availablePolls, "DBInstanceStatus", DBInstanceNotFound, "available", 20)
    ensures StepSucceeds(env, step)
  {
  }

  /** A run whose outcome meets the contract of `CloneDatabase` in such an environment has done
      every step of `main`. */
  lemma CleanRunCompletes(env: Env, done: seq<Step>, failedAt: Option<Step>)
    requires env.raising == {} && !IsOrig(env.origAccount, env.cloneArn)
    requires WaitSucceeds(env.snapshotPolls, "Status", DBInstanceNotFound, "available", 5)
    requires WaitSucceeds(env.deletedPolls, "DBInstanceStatus", DBInstanceNotFound, "deleted", 5)
    requires WaitSucceeds(env.availablePolls, "DBInstanceStatus", DBInstanceNotFound, "available", 20)
    requires failedAt == None <==> done == Plan
    requires failedAt.Some? ==> !StepSucceeds(env, failedAt.value)
    ensures done == Plan
  {
    if failedAt.Some? {
      AllStepsSucceed(env, failedAt.value);
    }
  }
}
