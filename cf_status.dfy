/** check_cf_status.py: poll a CloudFormation stack until its update has finished. Each
    `describe_stacks` answer the script gets is an input; the poll count has no bound in the
    script, so over a finite list of answers the model can also end still polling. */
module CfStatus {
  import opened Wrappers
  import opened Strings

  const InProgress: string := "UPDATE_IN_PROGRESS"
  const Complete: string := "UPDATE_COMPLETE"

  /** One entry of the `Stacks` list `describe_stacks` returns. */
  datatype Stack = Stack(stackName: string, stackStatus: string)

  /** `get_stack_status`: the status of the first stack listed; an empty list raises `IndexError`. */
  function GetStackStatus(stacks: seq<Stack>): (r: Option<string>)
    ensures r.Some? <==> |stacks| > 0
    ensures r.Some? ==> r.value == stacks[0].stackStatus
  {
    if |stacks| == 0 then None else Some(stacks[0].stackStatus)
  }

  /** What one pass of the `while True` loop does with a status. */
  datatype Verdict = PollAgain | Finished | ExitOne

  /** The `if`/`elif`/`else` of the loop: substring tests, the in-progress one first. */
  function Classify(status: string): Verdict {
    if Contains(status, InProgress) then PollAgain
    else if Contains(status, Complete) then Finished
    else ExitOne
  }

  /** What one `get_stack_status` call reads: `None` when an exception escapes it, either
      from `describe_stacks` itself (`answer == None`) or from indexing an empty `Stacks` list. */
  function StatusOf(answer: Option<seq<Stack>>): (r: Option<string>)
    ensures r.Some? <==> answer.Some? && |answer.value| > 0
    ensures r.Some? ==> r.value == answer.value[0].stackStatus
  {
    if answer.None? then None else GetStackStatus(answer.value)
  }

  /** The answer is read without an exception and says the update is still in progress. */
  predicate StillInProgress(answer: Option<seq<Stack>>) {
    StatusOf(answer).Some? && Contains(StatusOf(answer).value, InProgress)
  }

  /** How `main` ends over the answers it was given. */
  datatype Outcome =
    | StillPolling
    | Succeeded(status: string)
    | ExitedWithError(status: string)   // `exit(1)`
    | Crashed                           // an exception escaped `get_stack_status`

  /** `main`: `answers[0]` is what the first `describe_stacks` call gives, each later entry the
      answer to the next poll. `read` is how many answers the script looked at. */
  method WatchStack(answers: seq<Option<seq<Stack>>>) returns (outcome: Outcome, read: nat)
    ensures read <= |answers|
    ensures forall i :: 0 <= i < read - 1 ==> StillInProgress(answers[i])
    ensures outcome == StillPolling <==> read == |answers| && forall i :: 0 <= i < |answers| ==> StillInProgress(answers[i])
    ensures outcome != StillPolling ==> read >= 1
    ensures outcome == Crashed <==> outcome != StillPolling && StatusOf(answers[read - 1]).None?
    ensures outcome.Succeeded? ==>
              StatusOf(answers[read - 1]) == Some(outcome.status)
              && !Contains(outcome.status, InProgress) && Contains(outcome.status, Complete)
              && Classify(outcome.status) == Finished
    ensures outcome.ExitedWithError? ==>
              StatusOf(answers[read - 1]) == Some(outcome.status)
              && !Contains(outcome.status, InProgress) && !Contains(outcome.status, Complete)
              && Classify(outcome.status) == ExitOne
  {
    read := 0;
    while read < |answers|
      invariant read <= |answers|
      invariant forall i :: 0 <= i < read ==> StillInProgress(answers[i])
      decreases |answers| - read
    {
      var status := StatusOf(answers[read]);
      read := read + 1;
      if status.None? {
        return Crashed, read;
      } else if Contains(status.value, InProgress) {
        // sleep, then read the status again
      } else if Contains(status.value, Complete) {
        return Succeeded(status.value), read;
      } else {
        return ExitedWithError(status.value), read;
      }
    }
    outcome := StillPolling;
  }

  /** Some statuses as the substring tests see them: a cleanup after a completed update counts
      as success, and a rollback, finished or still running, ends with exit(1). */
  lemma InProgressPolls()
    ensures Classify("UPDATE_IN_PROGRESS") == PollAgain
  {
    ContainsAt("UPDATE_IN_PROGRESS", InProgress, 0);
  }

  lemma CompleteSucceeds()
    ensures Classify("UPDATE_COMPLETE") == Finished
  {
    NotContainsShort("UPDATE_COMPLETE", InProgress);
    ContainsAt("UPDATE_COMPLETE", Complete, 0);
  }

  lemma CleanupCountsAsSuccess()
    ensures Classify("UPDATE_COMPLETE_CLEANUP_IN_PROGRESS") == Finished
  {
    CleanupLacksInProgress();
    ContainsAt("UPDATE_COMPLETE_CLEANUP_IN_PROGRESS", Complete, 0);
  }

  lemma RollbackCompleteExits()
    ensures Classify("UPDATE_ROLLBACK_COMPLETE") == ExitOne
  {
    RollbackCompleteLacksInProgress();
    RollbackCompleteLacksComplete();
  }

  lemma RollbackInProgressExits()
    ensures Classify("UPDATE_ROLLBACK_IN_PROGRESS") == ExitOne
  {
    RollbackInProgressLacksInProgress();
    RollbackInProgressLacksComplete();
  }

  // One substring refutation per lemma keeps each proof small.

  lemma CleanupLacksInProgress()
    ensures !Contains("UPDATE_COMPLETE_CLEANUP_IN_PROGRESS", InProgress)
  {
    NotContainsByWitnesses("UPDATE_COMPLETE_CLEANUP_IN_PROGRESS", InProgress,
      [7, 0, 0, 0, 0, 0, 0, 0, 0, 0, 0, 0, 0, 0, 0, 0, 0, 0]);
  }

  lemma RollbackCompleteLacksInProgress()
    ensures !Contains("UPDATE_ROLLBACK_COMPLETE", InProgress)
  {
    NotContainsByWitnesses("UPDATE_ROLLBACK_COMPLETE", InProgress, [7, 0, 0, 0, 0, 0, 0]);
  }

  lemma RollbackCompleteLacksComplete()
    ensures !Contains("UPDATE_ROLLBACK_COMPLETE", Complete)
  {
    NotContainsByWitnesses("UPDATE_ROLLBACK_COMPLETE", Complete, [7, 0, 0, 0, 0, 0, 0, 0, 0, 0]);
  }

  lemma RollbackInProgressLacksInProgress()
    ensures !Contains("UPDATE_ROLLBACK_IN_PROGRESS", InProgress)
  {
    NotContainsByWitnesses("UPDATE_ROLLBACK_IN_PROGRESS", InProgress, [7, 0, 0, 0, 0, 0, 0, 0, 0, 0]);
  }

  lemma RollbackInProgressLacksComplete()
    ensures !Contains("UPDATE_ROLLBACK_IN_PROGRESS", Complete)
  {
    NotContainsByWitnesses("UPDATE_ROLLBACK_IN_PROGRESS", Complete, [7, 0, 0, 0, 0, 0, 0, 0, 0, 0, 0, 0, 0]);
  }
}
