/** The copy side of clone-s3-bucket.py: bucket checks, the per-key copy request, the worker
    loop of `CopyWorker.run` with its one-slot credential queue, and the set-up done by
    `S3.copy_files`. Workers are not threads here: each call of `CopyWorker.Step` is one pass
    through the body of the worker's `while True` loop, taken atomically. The clock, the outcome
    of each copy call and the result of each `assume_role` call are parameters. */
module S3Copy {
  import opened Wrappers
  import opened PyQueue
  import opened S3Keys

  /** What `assume_role` returns: temporary credentials and their expiry (an abstract clock value). */
  datatype Credentials = Credentials(accessKeyId: string, secretAccessKey: string, sessionToken: string, expiration: int)

  /** Canned ACL put on every copied object. */
  const OwnerFullControl: string := "bucket-owner-full-control"

  /** Keyword arguments of one `copy_object` call. */
  datatype CopyRequest = CopyRequest(
    sourceBucket: string, sourceKey: ObjectKey, bucket: string, key: ObjectKey, acl: string,
    credentials: Credentials)

  /** `check_session_expiration`: the credentials count as expired from their expiry instant on. */
  predicate SessionExpired(now: int, expiry: int) {
    now >= expiry
  }

  /** The `Code` of a `head_bucket` client error, as `int()` sees it. */
  datatype ErrorCode = NumericCode(n: int) | TextCode(text: string)

  /** Outcome of the `head_bucket` call in `S3.bucket`. */
  datatype HeadBucket = HeadOk | HeadClientError(code: ErrorCode)

  /** The exceptions that end `S3.copy_files` before any key is queued: the two `ValueError`s
      `S3.bucket` can raise (the explicit one for a 404, and the one `int()` raises on a code
      that is not a number), and an exception from the first `assume_role` call. */
  datatype SetupError = BucketMissing(name: string) | CodeNotNumeric(text: string) | AssumeRoleRaised

  /** `S3.bucket`: the bucket is refused only on a 404; every other client error is ignored. */
  function Bucket(name: string, head: HeadBucket): (r: Result<string, SetupError>)
    ensures r == Failure(BucketMissing(name)) <==> head == HeadClientError(NumericCode(404))
    ensures r.Failure? && r.error.CodeNotNumeric? <==> head.HeadClientError? && head.code.TextCode?
    ensures r.Success? <==> head == HeadOk || (head.HeadClientError? && head.code.NumericCode? && head.code.n != 404)
    ensures r.Success? ==> r.value == name
  {
    match head
    case HeadOk => Success(name)
    case HeadClientError(NumericCode(n)) => if n == 404 then Failure(BucketMissing(name)) else Success(name)
    case HeadClientError(TextCode(t)) => Failure(CodeNotNumeric(t))
  }

  /** `create_s3_session`: takes the credentials out of the credential queue, puts them straight
      back and marks the task done; the session is built from what was taken. On an empty queue
      the caller would wait for ever (`None`). */
  method CreateS3Session(credQueue: Queue<Credentials>) returns (session: Option<Credentials>)
    requires credQueue.Valid()
    modifies credQueue
    ensures credQueue.Valid() && credQueue.unfinished == old(credQueue.unfinished)
    ensures old(credQueue.items) == [] ==> session == None && credQueue.items == []
    ensures old(credQueue.items) != [] ==>
              session == Some(old(credQueue.items)[0])
              && credQueue.items == old(credQueue.items)[1..] + [old(credQueue.items)[0]]
    ensures |old(credQueue.items)| == 1 ==> credQueue.items == old(credQueue.items)
  {
    session := credQueue.Get();
    if session.Some? {
      var accepted := credQueue.Put(session.value);
      var ok := credQueue.TaskDone();
    }
  }

  /** How the `except ClientError` branch of `CopyWorker.run` ends. */
  datatype Recovery =
    | Renewed(session: Credentials)   // expired: fresh credentials assumed and installed
    | Kept(session: Credentials)      // not expired: the credentials were put back as they were
    | AssumeRaised                    // expired, and `assume_role` raised
    | SlotWait                        // the credential queue is empty: `get()` waits for ever

  /** The `except ClientError` branch: take the credentials, renew them through `assume_role`
      (whose result is `assumed`, `None` when it raises) if they have expired at `now`, otherwise
      put them back; then open a new session. */
  method RecoverFromClientError(credQueue: Queue<Credentials>, now: int, assumed: Option<Credentials>)
    returns (r: Recovery)
    requires credQueue.Valid()
    modifies credQueue
    ensures credQueue.Valid() && credQueue.unfinished == old(credQueue.unfinished)
    ensures r == SlotWait <==> old(credQueue.items) == []
    ensures r == SlotWait ==> credQueue.items == []
    ensures r != SlotWait ==>
              var held := old(credQueue.items)[0];
              var rest := old(credQueue.items)[1..];
              && (r.Renewed? || r == AssumeRaised <==> SessionExpired(now, held.expiration))
              && (r == AssumeRaised <==> SessionExpired(now, held.expiration) && assumed == None)
              && (r == AssumeRaised ==> credQueue.items == rest)
              && (r.Renewed? ==>
                    var next := rest + [assumed.value];
                    r.session == next[0] && credQueue.items == next[1..] + [next[0]])
              && (r.Kept? ==>
                    var next := rest + [held];
                    r.session == next[0] && credQueue.items == next[1..] + [next[0]])
  {
    var got := credQueue.Get();
    if got.None? {
      return SlotWait;
    }
    var held := got.value;
    var putBack := held;
    if SessionExpired(now, held.expiration) {
      if assumed.None? {
        // the exception leaves the handler before anything is put back
        return AssumeRaised;
      }
      putBack := assumed.value;
    }
    var accepted := credQueue.Put(putBack);
    var ok := credQueue.TaskDone();
    var session := CreateS3Session(credQueue);
    r := if SessionExpired(now, held.expiration) then Renewed(session.value) else Kept(session.value);
  }

  /** Outcome of the `copy_object` call, chosen by the environment. */
  datatype CopyOutcome = CopySucceeded | CopyClientError | CopyOtherError

  /** Where a worker thread is. `Blocked` waits for ever on an empty credential queue;
      `Died` is a thread ended by an exception that escaped `run`. */
  datatype WorkerState = Sleeping | Running(session: Credentials) | Exited | Died | Blocked

  /** What one pass through the worker loop did. */
  datatype StepResult =
    | QueueEmpty                       // `get(timeout=30)` raised `Empty`: the thread exits
    | Copied(key: ObjectKey)
    | CopyRaised(key: ObjectKey)       // an error other than `ClientError` ended the thread
    | Refreshed(key: ObjectKey)        // `ClientError`, expired credentials replaced
    | Reused(key: ObjectKey)           // `ClientError`, credentials still valid and kept
    | RefreshRaised(key: ObjectKey)    // `ClientError`, `assume_role` raised and ended the thread
    | SlotEmpty(key: ObjectKey)        // `ClientError`, then waiting for ever on the credential queue

  class CopyWorker {
    const keyQueue: Queue<ObjectKey>
    const credQueue: Queue<Credentials>
    const srcBucketName: string
    const dstBucketName: string
    var state: WorkerState

    /** Both queues are well formed, and every key still queued has an unfinished task. */
    ghost predicate Valid()
      reads this, keyQueue, credQueue
    {
      keyQueue.Valid() && credQueue.Valid() && |keyQueue.items| <= keyQueue.unfinished
    }

    constructor (keyQueue: Queue<ObjectKey>, credQueue: Queue<Credentials>, srcBucketName: string, dstBucketName: string)
      requires keyQueue.Valid() && credQueue.Valid() && |keyQueue.items| <= keyQueue.unfinished
      ensures Valid()
      ensures this.keyQueue == keyQueue && this.credQueue == credQueue
      ensures this.srcBucketName == srcBucketName && this.dstBucketName == dstBucketName
      ensures state == Sleeping
    {
      this.keyQueue := keyQueue;
      this.credQueue := credQueue;
      this.srcBucketName := srcBucketName;
      this.dstBucketName := dstBucketName;
      state := Sleeping;
    }

    /** The start of `run` after its initial sleep: open the first session. */
    method Start()
      requires Valid() && state == Sleeping
      modifies this, credQueue
      ensures Valid() && credQueue.unfinished == old(credQueue.unfinished)
      ensures old(credQueue.items) == [] ==> state == Blocked && credQueue.items == []
      ensures old(credQueue.items) != [] ==> state == Running(old(credQueue.items)[0])
      ensures |old(credQueue.items)| == 1 ==> credQueue.items == old(credQueue.items)
    {
      var session := CreateS3Session(credQueue);
      state := if session.None? then Blocked else Running(session.value);
    }

    /** One pass through the loop of `run`: take a key, issue the copy request (whose outcome is
        `outcome`), handle a `ClientError` at clock value `now` (with `assumed` the result of
        `assume_role`, `None` when it raises), and mark the key done in the `finally` clause. */
    method Step(now: int, outcome: CopyOutcome, assumed: Option<Credentials>)
      returns (result: StepResult, request: Option<CopyRequest>)
      requires Valid() && state.Running?
      modifies this, keyQueue, credQueue
      ensures Valid()
      // the key queue: one key taken, never put back
      ensures keyQueue.history == old(keyQueue.history)
      ensures result == QueueEmpty <==> old(keyQueue.items) == []
      ensures result == QueueEmpty ==>
                state == Exited && request == None && keyQueue.items == [] && keyQueue.unfinished == old(keyQueue.unfinished)
                && credQueue.items == old(credQueue.items)
      ensures result != QueueEmpty ==>
                && result.key == old(keyQueue.items)[0]
                && keyQueue.items == old(keyQueue.items)[1..]
                && keyQueue.taken == old(keyQueue.taken) + [result.key]
                && request == Some(CopyRequest(srcBucketName, result.key, dstBucketName, result.key,
                                               OwnerFullControl, old(state).session))
      // every key taken is marked done exactly once, unless the worker is stuck before `finally`
      ensures keyQueue.unfinished ==
                if result == QueueEmpty || result.SlotEmpty? then old(keyQueue.unfinished)
                else old(keyQueue.unfinished) - 1
      // which branch ran
      ensures result.Copied? <==> result != QueueEmpty && outcome == CopySucceeded
      ensures result.CopyRaised? <==> result != QueueEmpty && outcome == CopyOtherError
      ensures result != QueueEmpty && outcome != CopyClientError ==>
                credQueue.items == old(credQueue.items) && credQueue.unfinished == old(credQueue.unfinished)
      ensures result.Copied? ==> state == old(state)
      ensures result.CopyRaised? || result.RefreshRaised? ==> state == Died
      ensures result.SlotEmpty? <==> result != QueueEmpty && outcome == CopyClientError && old(credQueue.items) == []
      ensures result.SlotEmpty? ==> state == Blocked && credQueue.items == []
      // the credential slot: still one credential afterwards, unless `assume_role` raised
      ensures credQueue.unfinished == old(credQueue.unfinished)
      ensures |old(credQueue.items)| == 1 && !result.RefreshRaised? ==> |credQueue.items| == 1
      ensures result.Refreshed? || result.Reused? || result.RefreshRaised? ==>
                var held := old(credQueue.items)[0];
                && outcome == CopyClientError
                && (result.Reused? <==> !SessionExpired(now, held.expiration))
                && (result.RefreshRaised? <==> SessionExpired(now, held.expiration) && assumed == None)
                && (result.RefreshRaised? ==> credQueue.items == old(credQueue.items)[1..])
                && (|old(credQueue.items)| == 1 && result.Refreshed? ==>
                      credQueue.items == [assumed.value] && state == Running(assumed.value))
                && (|old(credQueue.items)| == 1 && result.Reused? ==>
                      credQueue.items == [held] && state == Running(held))
    {
      var got := keyQueue.Get();
      if got.None? {
        state := Exited;
        return QueueEmpty, None;
      }
      var key := got.value;
      request := Some(CopyRequest(srcBucketName, key, dstBucketName, key, OwnerFullControl, state.session));
      match outcome {
        case CopySucceeded =>
          result := Copied(key);
        case CopyOtherError =>
          result := CopyRaised(key);
          state := Died;
        case CopyClientError =>
          var recovery := RecoverFromClientError(credQueue, now, assumed);
          match recovery {
            case Renewed(session) =>
              result := Refreshed(key);
              state := Running(session);
            case Kept(session) =>
              result := Reused(key);
              state := Running(session);
            case AssumeRaised =>
              result := RefreshRaised(key);
              state := Died;
            case SlotWait =>
              // stuck inside the handler: the `finally` clause is never reached
              state := Blocked;
              return SlotEmpty(key), request;
          }
      }
      var ok := keyQueue.TaskDone();
    }
  }

  /** The producer loop of `S3.copy_files`: puts the keys in order until the queue is full,
      where the real producer would block until a worker makes room. */
  method EnqueueKeys(keyQueue: Queue<ObjectKey>, keys: seq<ObjectKey>) returns (placed: nat)
    requires keyQueue.Valid()
    modifies keyQueue
    ensures keyQueue.Valid() && placed <= |keys|
    ensures keyQueue.items == old(keyQueue.items) + keys[..placed]
    ensures keyQueue.history == old(keyQueue.history) + keys[..placed]
    ensures keyQueue.unfinished == old(keyQueue.unfinished) + placed
    ensures placed < |keys| ==> keyQueue.Full()
  {
    placed := 0;
    while placed < |keys|
      invariant keyQueue.Valid() && placed <= |keys|
      invariant keyQueue.items == old(keyQueue.items) + keys[..placed]
      invariant keyQueue.history == old(keyQueue.history) + keys[..placed]
      invariant keyQueue.unfinished == old(keyQueue.unfinished) + placed
      decreases |keys| - placed
    {
      var accepted := keyQueue.Put(keys[placed]);
      if !accepted {
        return;
      }
      assert keys[..placed + 1] == keys[..placed] + [keys[placed]];
      placed := placed + 1;
    }
  }

  /** Capacity of the key queue. */
  const KeyQueueSize: nat := 1000

  /** What `S3.copy_files` has set up once its producer first has to wait: the two queues,
      the workers (not yet started) and the keys still to be put. */
  datatype CopyJob = CopyJob(
    keyQueue: Queue<ObjectKey>, credQueue: Queue<Credentials>, workers: seq<CopyWorker>,
    pending: seq<ObjectKey>)

  /** `S3.copy_files`: check both buckets (source first), seed the credential queue with the
      credentials `assume_role` returned (`None` when it raises), create `threads` workers and
      feed the keys yielded by `bucket_keys` into the key queue. */
  method CopyFiles(srcBucketName: string, dstBucketName: string, srcHead: HeadBucket, dstHead: HeadBucket,
                   assumed: Option<Credentials>, threads: nat, listings: seq<seq<ObjectKey>>)
    returns (r: Result<CopyJob, SetupError>)
    ensures Bucket(srcBucketName, srcHead).Failure? ==> r == Failure(Bucket(srcBucketName, srcHead).error)
    ensures Bucket(srcBucketName, srcHead).Success? && Bucket(dstBucketName, dstHead).Failure? ==>
              r == Failure(Bucket(dstBucketName, dstHead).error)
    ensures Bucket(srcBucketName, srcHead).Success? && Bucket(dstBucketName, dstHead).Success? ==>
              (r == Failure(AssumeRoleRaised) <==> assumed == None)
    ensures Bucket(srcBucketName, srcHead).Success? && Bucket(dstBucketName, dstHead).Success? && assumed.Some? ==>
              r.Success?
    ensures r.Success? ==>
              var job := r.value;
              && Bucket(srcBucketName, srcHead).Success? && Bucket(dstBucketName, dstHead).Success?
              && fresh(job.keyQueue) && fresh(job.credQueue)
              && job.keyQueue.Valid() && job.credQueue.Valid()
              && job.keyQueue.maxsize == KeyQueueSize
              && assumed.Some? && job.credQueue.items == [assumed.value] && job.credQueue.unfinished == 1
              && job.keyQueue.items + job.pending == Flatten(KeyBatches(listings))
              && job.keyQueue.unfinished == |job.keyQueue.items|
              && (job.pending != [] ==> job.keyQueue.Full())
              && |job.workers| == threads
              && (forall w :: w in job.workers ==>
                    fresh(w) && w.Valid() && w.state == Sleeping
                    && w.keyQueue == job.keyQueue && w.credQueue == job.credQueue
                    && w.srcBucketName == srcBucketName && w.dstBucketName == dstBucketName)
  {
    var src := Bucket(srcBucketName, srcHead);
    if src.Failure? {
      return Failure(src.error);
    }
    var dst := Bucket(dstBucketName, dstHead);
    if dst.Failure? {
      return Failure(dst.error);
    }
    var keyQueue := new Queue<ObjectKey>(KeyQueueSize);
    var credQueue := new Queue<Credentials>(0);
    if assumed.None? {
      return Failure(AssumeRoleRaised);
    }
    var seeded := credQueue.Put(assumed.value);
    var workers: seq<CopyWorker> := [];
    for i := 0 to threads
      invariant |workers| == i
      invariant keyQueue.Valid() && keyQueue.items == [] && keyQueue.unfinished == 0 && keyQueue.maxsize == KeyQueueSize
      invariant credQueue.Valid() && credQueue.items == [assumed.value] && credQueue.unfinished == 1
      invariant forall w :: w in workers ==>
                  fresh(w) && w.state == Sleeping
                  && w.keyQueue == keyQueue && w.credQueue == credQueue
                  && w.srcBucketName == srcBucketName && w.dstBucketName == dstBucketName
    {
      var worker := new CopyWorker(keyQueue, credQueue, srcBucketName, dstBucketName);
      workers := workers + [worker];
    }
    var batches := BucketKeys(listings);
    var keys := Flatten(batches);
    var placed := EnqueueKeys(keyQueue, keys);
    assert keys[..placed] + keys[placed..] == keys;
    r := Success(CopyJob(keyQueue, credQueue, workers, keys[placed..]));
  }
}
