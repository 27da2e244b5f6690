# aws-util-scripts, modelled in Dafny

This project models five small AWS operations scripts and proves properties about them:

- **clone-s3-bucket.py** copies every object of a source bucket into a destination bucket.
  - A generator (`S3.bucket_keys`) cuts the per-prefix object listings into lists of at most 1000 keys.
  - The producer (`S3.copy_files`) puts those keys into a bounded `Queue` of 1000.
  - A pool of `CopyWorker` threads takes keys from the queue and issues `copy_object` calls.
  - The workers share the assumed-role credentials through a one-slot credential queue. They renew the credentials when a `ClientError` shows that they have expired.
- **clone-rds-snapshot.py** snapshots a production RDS instance, shares the snapshot, replaces a clone instance in another account with a restore of it, and resets its password.
  - Its status waits poll a bounded number of times.
  - Every destructive call refuses to touch an instance whose ARN contains the original account id.
- **SPF-route53/update-route53.py** selects the public hosted zones whose names are listed. It then upserts the listed record sets into each zone, renaming the first record set to the zone name.
- **parse-cloudtrail.py** searches decoded CloudTrail events for a key/value pair. It prints the dictionaries that directly contain a matching dictionary.
- **check_cf_status.py** polls a CloudFormation stack status until the update is no longer in progress. It succeeds on a status containing `UPDATE_COMPLETE` and exits with status 1 otherwise.

Modules:

- `Wrappers` defines Option and Result.
- `Strings` covers substring search and decimal digits.
- `PyQueue` covers the part of Python's `Queue.Queue` the copy script uses.
- `S3Keys` and `S3Copy` cover clone-s3-bucket.py.
- `RdsClone`, `Route53`, `CloudTrail` and `CfStatus` cover the other scripts.

The scripts' threads and their calls to AWS are modelled like this:

- **Threads and the queue.** Threads are modelled one step at a time. A Python `Queue` becomes a class whose methods report "would block" instead of blocking. One call of `CopyWorker.Step` is one atomic pass through the worker loop.
- **AWS answers.** Every answer from AWS is an input of the member that consumes it: a `head_bucket` outcome, a `copy_object` outcome, an `assume_role` result, or a stream of describe answers.
- **The clock.** The wall clock is the `now` parameter.

## Model

| member | source | states |
|---|---|---|
| Strings.ContainsIffOccurs | clone-rds-snapshot.py:129 | Python's `needle in hay` on strings holds exactly when the needle occurs at some index of the haystack. |
| Strings.ParseDecimalOfDecimal | clone-rds-snapshot.py:16 | `str()` of an epoch is all digits and reads back as the same number. |
| PyQueue.Queue.constructor | clone-s3-bucket.py:212-214 | A new queue is empty, with no unfinished tasks and the given capacity (0 means unbounded). |
| PyQueue.Queue.Put | clone-s3-bucket.py:228 | `put` appends the item at the tail and adds one unfinished task. On a full bounded queue it changes nothing and reports that the caller would block. |
| PyQueue.Queue.Get | clone-s3-bucket.py:92 | `get` removes and returns the oldest item; it is recorded in the taken log. On an empty queue it changes nothing and reports that the caller would wait. |
| PyQueue.Queue.TaskDone | clone-s3-bucket.py:123 | `task_done` lowers the unfinished count by one. With no unfinished task it fails (`ValueError`) and changes nothing. |
| S3Keys.FillBatches | clone-s3-bucket.py:244-249 | The inner loop leaves exactly the full 1000-key batches of the carried keys plus the listing, and the remaining keys in the list being filled. |
| S3Keys.BucketKeys | clone-s3-bucket.py:233-252 | The generator yields exactly `KeyBatches(listings)`, in order. The list being filled is carried from one prefix into the next. |
| S3Keys.FullBatchesSplit | clone-s3-bucket.py:244-249 | Every full batch has exactly 1000 keys and the leftover has fewer. Concatenated, they give back the keys in order. |
| S3Keys.BatchesBounded | clone-s3-bucket.py:239-249 | No yielded list holds more than 1000 keys. |
| S3Keys.ShortBatchPerPrefix | clone-s3-bucket.py:243-252 | Each prefix ends with exactly one yield of fewer than 1000 keys, so n prefixes yield exactly n short lists. |
| S3Keys.SinglePrefixInOrder | clone-s3-bucket.py:241-252 | With a single prefix, the yielded lists concatenate to the listing itself. |
| S3Keys.PrefixYieldsCarryThenListing | clone-s3-bucket.py:243-252 | One prefix yields the keys carried over from the previous prefix, then its own listing, in order. |
| S3Keys.YieldedKeys | clone-s3-bucket.py:241-252 | A key is yielded if and only if it is carried in or appears in some prefix's listing. |
| S3Keys.LeftoverYieldedTwice | clone-s3-bucket.py:249-252 | The listings ["a"] then ["b"] yield ["a"] and then ["a","b"], so key "a" is yielded twice. |
| S3Keys.BucketKeysCorrected | clone-s3-bucket.py:233-252 | With the list cleared after each prefix's final yield, the generator yields exactly `ResetBatches(listings)`. |
| S3Keys.ResetBatchesExact | clone-s3-bucket.py:233-252 | The corrected batches hold every listed key exactly once, in listing order, and each holds at most 1000 keys. |
| S3Copy.Bucket | clone-s3-bucket.py:254-273 | A bucket is refused as missing if and only if `head_bucket` fails with code 404. A non-numeric code fails in `int()`. Any other outcome returns the bucket. |
| S3Copy.CreateS3Session | clone-s3-bucket.py:158-179 | The session uses the credentials at the head of the credential queue, which move to its tail; a one-item slot is unchanged. The unfinished count is unchanged. An empty queue means waiting forever. |
| S3Copy.RecoverFromClientError | clone-s3-bucket.py:102-119 | Expired credentials (now >= expiry) are replaced by the `assume_role` result, and valid ones are put back. Either way a new session is opened from the slot. If `assume_role` raises, the slot is left without the credentials taken out. |
| S3Copy.CopyWorker.constructor | clone-s3-bucket.py:67-75 | A worker holds the two shared queues and both bucket names, and starts out sleeping. Given consistent queues, the new worker satisfies the worker invariant. |
| S3Copy.CopyWorker.Start | clone-s3-bucket.py:84-87 | After its initial sleep a worker runs with the credentials in the slot, or waits forever if the slot is empty. The slot is unchanged. |
| S3Copy.CopyWorker.Step | clone-s3-bucket.py:88-143 | Details below the table. |
| S3Copy.EnqueueKeys | clone-s3-bucket.py:225-228 | The producer appends the keys in order until the queue is full. Items, history and unfinished count grow by exactly the keys placed. |
| S3Copy.CopyFiles | clone-s3-bucket.py:197-231 | Details below the table. |
| RdsClone.WaitForStatus | clone-rds-snapshot.py:156-209 | Details below the table. |
| RdsClone.WaitInstanceStatus | clone-rds-snapshot.py:156-181 | The polls end at the first one that does not show another `DBInstanceStatus`, or time out after `wait_time*2+1` mismatches. It returns True if and only if that first poll, within the bound, shows the awaited status or finds the instance missing while `'deleted'` is awaited. If the first poll that stops is a fault, it is the last poll: a missing instance gives True for `'deleted'`, and any fault otherwise re-raises. A poll without `DBInstanceStatus` raises `KeyError`. |
| RdsClone.WaitSnapshotStatus | clone-rds-snapshot.py:184-209 | As written: the same poll count, and True if and only if the first poll that does not show another `Status` shows the awaited one (or the instance fault while `'deleted'` is awaited). A snapshot first found missing at any poll within the bound ends the polls and raises `DBSnapshotNotFoundFault`, even when `'deleted'` is awaited. A poll without `Status` raises `KeyError`. |
| RdsClone.WaitSnapshotStatusCorrected | clone-rds-snapshot.py:184-209 | With the snapshot's own fault caught: the same poll count and True-if-and-only-if as the instance wait, on `Status`. If the snapshot is first found missing at any poll within the bound, that is the last poll. Then awaiting `'deleted'` returns True, and any other status re-raises. A poll without `Status` raises `KeyError`. |
| RdsClone.IsOrig | clone-rds-snapshot.py:126-129 | An instance is the original's if and only if the original account id occurs in its ARN. |
| RdsClone.ChangeMasterPassword | clone-rds-snapshot.py:61-70 | Raises `ValueError` if and only if the instance is the original's. Otherwise it issues exactly the password change for that instance. |
| RdsClone.DeleteDbInstanceCall | clone-rds-snapshot.py:86-95 | Raises `ValueError` if and only if the instance is the original's. Otherwise it deletes that instance, skipping the final snapshot. |
| RdsClone.SnapshotName | clone-rds-snapshot.py:16 | The snapshot name is the instance id, a dash, then only decimal digits. |
| RdsClone.SnapshotNameEpoch | clone-rds-snapshot.py:13-16 | The digits after the dash read back as the epoch. |
| RdsClone.RunStep | clone-rds-snapshot.py:30-46 | A step succeeds if and only if `StepSucceeds` holds. A wait succeeds if and only if it returns True given its polls; `main`'s snapshot wait is the as-written one. Deleting the clone or changing its password succeeds if and only if the ARN lacks the original account id and the call does not raise. Any other call succeeds if and only if it does not raise. |
| RdsClone.CloneDatabase | clone-rds-snapshot.py:21-46 | The steps done are a prefix of `main`'s fixed order. Every step done succeeded, and the step it stopped at failed, so the first exception stops all later steps. If the clone's ARN names the original account, nothing is deleted and no password is changed. The snapshot is deleted only after every other step succeeded. |
| RdsClone.CleanRunCompletes | clone-rds-snapshot.py:21-46 | If no call raises, the clone is not the original's and every wait returns True, then any outcome meeting `CloneDatabase`'s contract has done every step. |
| Route53.StripNewlines | SPF-route53/update-route53.py:5 | `rstrip('\n')` returns a prefix of the line. The prefix does not end in a newline, and only newlines were removed. |
| Route53.ZoneMapSelects | SPF-route53/update-route53.py:34-38 | The dictionary's keys are exactly the ids of the public zones whose name is listed. Each id maps to the name of the last such zone with that id, which is a listed name. |
| Route53.GetZoneIds | SPF-route53/update-route53.py:23-38 | The pages are concatenated in order, and the loop builds exactly `ZoneMap` of them, whose meaning `ZoneMapSelects` states. |
| Route53.CreateRecord | SPF-route53/update-route53.py:41-53 | The request is one change batch to the given zone holding a single `UPSERT` of the record set. |
| Route53.UpsertIsCreateRecord | SPF-route53/update-route53.py:41-53 | A request is a single-`UPSERT` batch of a record set to a zone if and only if it is the one `create_record` sends for them. |
| Route53.CreateRecords | SPF-route53/update-route53.py:20 | One request per record set, in file order, each a single `UPSERT` of that record set to the zone. |
| Route53.UpsertRecords | SPF-route53/update-route53.py:17-20 | Details below the table. |
| CloudTrail.Lookup | parse-cloudtrail.py:25 | `d[searchKey]` is the value of a member with that key. |
| CloudTrail.Recurse | parse-cloudtrail.py:22-30 | `recurse` answers True exactly for a dictionary holding the key with the searched value. It prints nothing for such a holder, or for anything that is not a dictionary. |
| CloudTrail.PrintedExactly | parse-cloudtrail.py:22-30 | A dictionary is printed if and only if it directly holds a match and `recurse` reaches it through dictionaries lacking the key. |
| CloudTrail.HolderNeverPrinted | parse-cloudtrail.py:24-27 | A dictionary that holds the searched key is never printed. |
| CloudTrail.PrintCount | parse-cloudtrail.py:28-30 | A dictionary lacking the key is printed exactly once per member value that matches, and never from below. |
| CloudTrail.GrandparentNotPrinted | parse-cloudtrail.py:28-30 | A match two levels down prints its parent only, not the outer dictionary. |
| CloudTrail.RecordsOf | parse-cloudtrail.py:49 | Events exist if and only if the file is an object with a `Records` member that is a list, an object or a string. A null, boolean or number there raises, as a missing member does. A list gives exactly its items, and an object or string gives nothing `recurse` could print. |
| CloudTrail.ProcessFiles | parse-cloudtrail.py:42-50 | The run is aborted if and only if some file lacks iterable `Records`. Every printed dictionary directly holds a match. |
| CloudTrail.ProcessFilesPrinted | parse-cloudtrail.py:42-50 | A dictionary is printed if and only if it directly holds a match and is reachable from the events of a scanned file, that is, one that comes before the first file without iterable `Records`. Later files are never read. |
| CloudTrail.ScanEventsPrinted | parse-cloudtrail.py:49-50 | Over a file's events, exactly the reachable direct parents of matches are printed. |
| CloudTrail.MatchingEventNotPrinted | parse-cloudtrail.py:49-50 | An event that matches by itself is never printed. |
| CfStatus.GetStackStatus | check_cf_status.py:31-32 | Returns the first stack's status, and raises if and only if no stack is listed. |
| CfStatus.WatchStack | check_cf_status.py:13-32 | Each `describe_stacks` answer goes through `get_stack_status`. Polling continues exactly while the status is read and contains `UPDATE_IN_PROGRESS`. It then succeeds on a status containing `UPDATE_COMPLETE`, and exits with 1 on any other status. An exception from `describe_stacks` or an empty `Stacks` list ends the run. |
| CfStatus.InProgressPolls | check_cf_status.py:18-20 | `UPDATE_IN_PROGRESS` polls again. |
| CfStatus.CompleteSucceeds | check_cf_status.py:22-24 | `UPDATE_COMPLETE` succeeds. |
| CfStatus.CleanupCountsAsSuccess | check_cf_status.py:22-24 | `UPDATE_COMPLETE_CLEANUP_IN_PROGRESS` counts as success. |
| CfStatus.RollbackCompleteExits | check_cf_status.py:26-28 | `UPDATE_ROLLBACK_COMPLETE` exits with 1. |
| CfStatus.RollbackInProgressExits | check_cf_status.py:26-28 | `UPDATE_ROLLBACK_IN_PROGRESS` exits with 1. |

What the longer contracts state:

- **S3Copy.CopyWorker.Step** (one pass through the worker loop):
  - It takes the head key and never puts a key back, so the queue's history is unchanged.
  - It requests a copy of that key between the two buckets, with the `bucket-owner-full-control` ACL and the worker's credentials.
  - Each taken key is marked done exactly once, except by a worker left waiting on an empty slot.
  - Other errors and a raising `assume_role` end the worker.
  - A one-credential slot still holds one credential afterwards, the renewed one or the same one, unless `assume_role` raised; then the slot is left empty.
- **S3Copy.CopyFiles** (the set-up of the copy job):
  - The source bucket is checked before the destination, then the first `assume_role` may raise.
  - On success it returns the following:
    - A 1000-key queue and a credential slot that holds the assumed credentials.
    - `threads` fresh sleeping workers sharing both queues.
    - The queued keys plus the pending keys, which are exactly the keys `bucket_keys` yields as written, in order, duplicates included.
    - A full queue whenever keys are still pending.
  - It succeeds whenever both buckets pass and `assume_role` returns credentials.
- **RdsClone.WaitForStatus** (the shared polling loop):
  - It never returns False.
  - It makes at most `wait_time*2+1` polls.
  - It times out exactly when that many polls all show another status.
  - Otherwise every poll but the last mismatched.
  - It returns True exactly when the last poll shows the awaited status, or shows the caught fault while `'deleted'` is awaited.
  - Equivalently (`WaitSucceeds`), within the bound the first poll not showing another status is a successful one.
- **Route53.UpsertRecords** (the per-zone loop of `main`):
  - For every zone, in the dictionary's order, every record set is upserted in file order.
  - Each request is the `create_record` batch (`SPF-route53/update-route53.py:41-53`): one change batch sent to that zone, holding exactly one `UPSERT` of that record set.
  - The first record set is renamed to that zone's name.
  - The renaming persists, so the first record set ends up with the last zone's name.
  - With records empty and at least one zone, it raises `IndexError`.

How the scripts handle failures (the model follows the code):

- **`ClientError` on a copy.** A key whose copy fails with a `ClientError` is marked done without being retried.
- **Other copy errors.** Any other copy error ends the worker thread; the key is not requeued.
- **Failed credential renewal.** When `assume_role` raises during a renewal, the worker thread dies and leaves the credential slot empty. It is not escalated, and later workers wait forever on the slot.
- **Prefixes.** Only keys under the configured prefixes are listed, and with the default empty prefix list nothing is copied.
- **Missing bucket.** A missing bucket is reported by a raised exception, not by a distinct exit code. Nothing counts skipped objects.

## Left out

- Threads, `sleep`, the 60-second start delay and the 30-second `get` timeout. Each worker step is atomic and "queue empty" stands for the timeout; interleavings are whatever order the caller chooses to call `Step` in.
- The blocking producer: `S3Copy.CopyFiles` stops feeding keys at the first full queue and returns the rest as pending. The hand-over with workers draining the queue while it is fed, `copy_queue.join()`, and `main`'s busy wait on `active_count()` are not modelled.
- boto3 itself: clients, sessions, resources, paginators and the S3/RDS/STS/Route 53/CloudFormation services. Their answers are inputs, and the `copy_object`, `assume_role` and describe calls are never executed.
- Credential expiry is an integer clock value, not a timezone-aware `datetime`.
- The placeholder constants (role ARN, bucket names, account ids, instance ids, password) are parameters.
- `S3Copy.Bucket`: `int()` on an error code is abstracted to numeric vs non-numeric codes (`ErrorCode`). Surrounding whitespace and signs that `int()` accepts are not modelled.
- RdsClone: the plain calls of `main` (assume role, describe, create, share, restore, describe snapshot, delete snapshot) are modelled only as succeeding or raising, given by the `raising` set. Their arguments (tags, restore options, the snapshot ARN) are not modelled.
- Printing (`print`, `stdout.write`, `json.dumps` formatting): CloudTrail's output is the list of printed dictionaries, in print order.
- File I/O: reading hostedZones.txt and resourceRecords.txt, `os.walk` in `get_files`, gzip decompression and `json.loads`. The files are given decoded, in walk order.
- `eval` of each line of resourceRecords.txt: record sets are given as values.
- `Route53.UpsertRecords`: a `change_resource_record_sets` call that raises (throttling, an invalid record) ends `main` before the remaining upserts. The model has no failure input, so every zone receives every record set.
- `Route53.GetZoneIds`: a `list_hosted_zones` page request that raises ends `main` before any upsert. The pages are given as values and always arrive.
- JSON floats and Python dictionary key order. JSON objects keep member order, and the iteration order of the zone dictionary is the `order` parameter.
- JSON objects with duplicate keys: `json.loads` keeps the last value while `CloudTrail.Lookup` takes the first. Objects are assumed to have distinct keys, and `Json` does not enforce it.
- `argparse` and the top-level `try`/`except` that prints an exception: an abort is reported as a flag.
- promote_ami.py and SPF-route53/get_hosted_zones.py are not part of this model.

## Findings

| source | as written | input that shows it | evidently intended | confidence | as-written member | corrected member |
|---|---|---|---|---|---|---|
| clone-s3-bucket.py:251-252 | After the `for`-`else` yields the remaining keys of a prefix, `keys` is not reset, so they are carried into the next prefix and yielded again | prefixes listing ["a"] then ["b"]: yields ["a"] then ["a","b"], so "a" is copied twice | `keys = []` after the final yield, so each listed key is yielded exactly once | high; not executed | S3Keys.LeftoverYieldedTwice | S3Keys.BucketKeysCorrected |
| clone-rds-snapshot.py:203 | `wait_snapshot_status` catches `DBInstanceNotFoundFault`, which describing a snapshot does not raise | awaiting 'deleted' for a snapshot that is gone: the first poll raises `DBSnapshotNotFoundFault`, which escapes instead of returning True | catch `DBSnapshotNotFoundFault`, like the instance wait catches the instance fault | medium (`main` only awaits 'available', where both agree); not executed | RdsClone.WaitSnapshotStatus | RdsClone.WaitSnapshotStatusCorrected |
