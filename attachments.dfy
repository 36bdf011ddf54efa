/**
 * The summary status of a note's attachment. A new upload starts
 * `pending`; a background worker moves it to `processing` and then to
 * `complete`, or to `failed` with the error; the user may regenerate the
 * summary or cancel it. The regeneration worker only advances a status it
 * still expects, while the upload worker and every failure path write
 * unconditionally. Each route or worker step is a method of `Attachment`,
 * specified by `Apply` on the pair (status, summary).
 */
module Attachments {
  import opened Wrappers
  import opened RouteRules
  import opened Text

  datatype Status = Pending | Processing | Complete | Failed | Cancelled

  const CancelledSummary := "Summary generation cancelled by user"
  const FileNotFoundSummary := "File not found"
  const FailurePrefix := "Failed to generate summary: "

  /** The summary written on failure: the fixed prefix and at most the first 100 characters of the error. */
  function FailureSummary(error: string): (r: string)
    ensures |r| == |FailurePrefix| + (if |error| <= 100 then |error| else 100)
    ensures r == FailurePrefix + error[..|r| - |FailurePrefix|]
    ensures |error| <= 100 ==> r == FailurePrefix + error
  {
    FailurePrefix + (if |error| <= 100 then error else error[..100])
  }

  datatype SummaryState = SummaryState(status: Status, summary: Option<string>)

  /** The status-writing steps of the routes and of the two workers. */
  datatype Step =
    | UploadWorkerStart
    | UploadWorkerDone(text: string)
    | WorkerFailed(error: string)
    | RegenReset
    | RegenFileMissing
    | RegenWorkerStart
    | RegenWorkerDone(text: string)
    | Cancel

  /** What one step writes. */
  function Apply(st: SummaryState, step: Step): SummaryState {
    match step
    case UploadWorkerStart => st.(status := Processing)
    case UploadWorkerDone(text) => SummaryState(Complete, Some(text))
    case WorkerFailed(error) => SummaryState(Failed, Some(FailureSummary(error)))
    case RegenReset => SummaryState(Pending, None)
    case RegenFileMissing => SummaryState(Failed, Some(FileNotFoundSummary))
    case RegenWorkerStart => if st.status == Pending then st.(status := Processing) else st
    case RegenWorkerDone(text) => if st.status == Processing then SummaryState(Complete, Some(text)) else st
    case Cancel =>
      if st.status == Pending || st.status == Processing then SummaryState(Cancelled, Some(CancelledSummary))
      else st
  }

  /** The steps in order. */
  function Run(st: SummaryState, steps: seq<Step>): SummaryState
    decreases |steps|
  {
    if steps == [] then st else Run(Apply(st, steps[0]), steps[1..])
  }

  predicate IsFailureSummary(s: string) {
    s == FileNotFoundSummary || (|FailurePrefix| <= |s| <= |FailurePrefix| + 100 && s[..|FailurePrefix|] == FailurePrefix)
  }

  /**
   * What every reachable state satisfies: a pending summary is empty, a
   * finished one is present, a cancelled one is the cancellation notice and
   * a failed one is a failure notice.
   */
  predicate Consistent(st: SummaryState) {
    && (st.status == Pending ==> st.summary.None?)
    && (st.status == Complete ==> st.summary.Some?)
    && (st.status == Cancelled ==> st.summary == Some(CancelledSummary))
    && (st.status == Failed ==> st.summary.Some? && IsFailureSummary(st.summary.value))
  }

  lemma ApplyKeepsConsistent(st: SummaryState, step: Step)
    requires Consistent(st)
    ensures Consistent(Apply(st, step))
  {
    if step.WorkerFailed? {
      var s := FailureSummary(step.error);
      assert s[..|FailurePrefix|] == FailurePrefix;
    }
  }

  /** Every sequence of steps keeps the states consistent. */
  lemma {:induction false} RunKeepsConsistent(st: SummaryState, steps: seq<Step>)
    requires Consistent(st)
    ensures Consistent(Run(st, steps))
    decreases |steps|
  {
    if steps != [] {
      ApplyKeepsConsistent(st, steps[0]);
      RunKeepsConsistent(Apply(st, steps[0]), steps[1..]);
    }
  }

  lemma {:induction false} RunConcat(st: SummaryState, a: seq<Step>, b: seq<Step>)
    ensures Run(st, a + b) == Run(Run(st, a), b)
    decreases |a|
  {
    if a != [] {
      assert (a + b)[0] == a[0];
      assert (a + b)[1..] == a[1..] + b;
      RunConcat(Apply(st, a[0]), a[1..], b);
    } else {
      assert a + b == b;
    }
  }

  // ------------------------------------------------------------ cancel

  /** Cancelling acts only on a pending or processing summary. */
  lemma CancelOnlyWhileRunning(st: SummaryState)
    ensures st.status == Pending || st.status == Processing ==>
      Apply(st, Cancel) == SummaryState(Cancelled, Some(CancelledSummary))
    ensures st.status != Pending && st.status != Processing ==> Apply(st, Cancel) == st
  {
  }

  /** Cancelling twice is cancelling once. */
  lemma CancelIdempotent(st: SummaryState)
    ensures Apply(Apply(st, Cancel), Cancel) == Apply(st, Cancel)
  {
  }

  // ------------------------------------------------------------ the guarded regeneration worker

  /**
   * The steps that check the status before writing: the regeneration
   * worker's start and finish, and cancel. The worker's failure path,
   * `WorkerFailed`, writes without checking and is not one of them.
   */
  predicate Guarded(step: Step) {
    step.RegenWorkerStart? || step.RegenWorkerDone? || step.Cancel?
  }

  predicate AllGuarded(steps: seq<Step>) {
    forall i :: 0 <= i < |steps| ==> Guarded(steps[i])
  }

  /** A finished, failed or cancelled summary is never rewritten by guarded steps. */
  lemma {:induction false} GuardedStepsKeepFinished(st: SummaryState, steps: seq<Step>)
    requires st.status == Complete || st.status == Failed || st.status == Cancelled
    requires AllGuarded(steps)
    ensures Run(st, steps) == st
    decreases |steps|
  {
    if steps != [] {
      assert Guarded(steps[0]);
      assert Apply(st, steps[0]) == st;
      assert AllGuarded(steps[1..]) by {
        forall i | 0 <= i < |steps| - 1 ensures Guarded(steps[1..][i]) {
          assert steps[1..][i] == steps[i + 1];
        }
      }
      GuardedStepsKeepFinished(st, steps[1..]);
    }
  }

  /** Guarded steps never lead to `failed`, from a state that is not failed. */
  lemma {:induction false} GuardedStepsNeverFail(st: SummaryState, steps: seq<Step>)
    requires st.status != Failed
    requires AllGuarded(steps)
    ensures Run(st, steps).status != Failed
    decreases |steps|
  {
    if steps != [] {
      assert Guarded(steps[0]);
      assert AllGuarded(steps[1..]) by {
        forall i | 0 <= i < |steps| - 1 ensures Guarded(steps[1..][i]) {
          assert steps[1..][i] == steps[i + 1];
        }
      }
      GuardedStepsNeverFail(Apply(st, steps[0]), steps[1..]);
    }
  }

  /**
   * A cancel during regeneration wins: whatever status-checked worker
   * steps ran before it and after it, the summary ends cancelled, unless
   * the worker had already completed before the cancel arrived. The
   * worker's failure path still overwrites a cancellation; see
   * UploadWorkerOverridesCancel.
   */
  lemma CancelDuringRegeneration(st: SummaryState, before: seq<Step>, after: seq<Step>)
    requires AllGuarded(before) && AllGuarded(after)
    ensures var reached := Run(st, [RegenReset] + before);
      Run(st, [RegenReset] + before + [Cancel] + after) ==
        if reached.status == Complete then reached
        else SummaryState(Cancelled, Some(CancelledSummary))
  {
    var reset := SummaryState(Pending, None);
    var reached := Run(st, [RegenReset] + before);
    RunConcat(st, [RegenReset], before);
    assert Run(st, [RegenReset]) == reset;
    RunKeepsConsistent(reset, before);
    GuardedStepsNeverFail(reset, before);
    RunConcat(st, [RegenReset] + before, [Cancel] + after);
    assert [RegenReset] + before + [Cancel] + after == ([RegenReset] + before) + ([Cancel] + after);
    RunConcat(reached, [Cancel], after);
    var cancelled := Apply(reached, Cancel);
    assert Run(reached, [Cancel]) == cancelled;
    assert cancelled == (if reached.status == Complete then reached else SummaryState(Cancelled, Some(CancelledSummary)));
    GuardedStepsKeepFinished(cancelled, after);
  }

  /** Without a cancel, a regeneration whose file exists ends complete with the new summary. */
  lemma RegenerationCompletes(st: SummaryState, text: string)
    ensures Run(st, [RegenReset, RegenWorkerStart, RegenWorkerDone(text)]) == SummaryState(Complete, Some(text))
  {
    RunThree(st, RegenReset, RegenWorkerStart, RegenWorkerDone(text));
  }

  lemma RunThree(st: SummaryState, a: Step, b: Step, c: Step)
    ensures Run(st, [a, b, c]) == Apply(Apply(Apply(st, a), b), c)
  {
    var s1 := Apply(st, a);
    var s2 := Apply(s1, b);
    assert [a, b, c][1..] == [b, c];
    assert Run(st, [a, b, c]) == Run(s1, [b, c]);
    assert [b, c][1..] == [c];
    assert Run(s1, [b, c]) == Run(s2, [c]);
    assert [c][1..] == [];
    assert Run(s2, [c]) == Run(Apply(s2, c), []);
  }

  // ------------------------------------------------------------ the unguarded steps

  /**
   * The upload worker and the failure paths do not look at the status, so
   * they overwrite a cancellation: cancelling a fresh upload does not stop
   * its summary from completing.
   */
  lemma UploadWorkerOverridesCancel(text: string, error: string)
    ensures Run(SummaryState(Pending, None), [Cancel, UploadWorkerStart, UploadWorkerDone(text)]) ==
      SummaryState(Complete, Some(text))
    ensures Run(SummaryState(Pending, None), [Cancel, RegenWorkerStart, WorkerFailed(error)]).status == Failed
  {
    RunThree(SummaryState(Pending, None), Cancel, UploadWorkerStart, UploadWorkerDone(text));
    RunThree(SummaryState(Pending, None), Cancel, RegenWorkerStart, WorkerFailed(error));
  }

  // ------------------------------------------------------------ the stored attachment

  /** An attachment row; only the summary fields change after creation. */
  class Attachment {
    const filename: string
    const filepath: string
    const filetype: FileType
    var status: Status
    var summary: Option<string>

    function State(): SummaryState
      reads this
    {
      SummaryState(status, summary)
    }

    ghost predicate Valid()
      reads this
    {
      Consistent(State())
    }

    /** A new attachment is pending with no summary. */
    constructor(filename: string, filepath: string, filetype: FileType)
      ensures this.filename == filename && this.filepath == filepath && this.filetype == filetype
      ensures State() == SummaryState(Pending, None) && Valid()
    {
      this.filename := filename;
      this.filepath := filepath;
      this.filetype := filetype;
      status := Pending;
      summary := None;
    }

    /** The upload worker starts: `processing`, whatever the status was. */
    method StartUploadSummary()
      requires Valid()
      modifies this
      ensures State() == Apply(old(State()), UploadWorkerStart) && Valid()
    {
      status := Processing;
    }

    /** The upload worker stores the summary: `complete`, whatever the status was. */
    method FinishUploadSummary(text: string)
      requires Valid()
      modifies this
      ensures State() == Apply(old(State()), UploadWorkerDone(text)) && Valid()
    {
      summary := Some(text);
      status := Complete;
    }

    /** Either worker failed: `failed` with the shortened error. */
    method FailSummary(error: string)
      requires Valid()
      modifies this
      ensures State() == Apply(old(State()), WorkerFailed(error)) && Valid()
    {
      status := Failed;
      summary := Some(FailureSummary(error));
      ApplyKeepsConsistent(old(State()), WorkerFailed(error));
    }

    /**
     * `regenerate_summary`: reset to pending with no summary, then fail
     * with "File not found" when the stored file is missing. Returns
     * whether the worker is started.
     */
    method RegenerateSummary(fileExists: bool) returns (started: bool)
      requires Valid()
      modifies this
      ensures started == fileExists
      ensures fileExists ==> State() == Apply(old(State()), RegenReset)
      ensures !fileExists ==> State() == Run(old(State()), [RegenReset, RegenFileMissing])
      ensures Valid()
    {
      status := Pending;
      summary := None;
      if !fileExists {
        status := Failed;
        summary := Some(FileNotFoundSummary);
        return false;
      }
      return true;
    }

    /** The regeneration worker starts: only a pending summary becomes `processing`. */
    method StartRegeneratedSummary()
      requires Valid()
      modifies this
      ensures State() == Apply(old(State()), RegenWorkerStart) && Valid()
    {
      if status == Pending {
        status := Processing;
      }
    }

    /** The regeneration worker stores the summary: only a processing summary becomes `complete`. */
    method FinishRegeneratedSummary(text: string)
      requires Valid()
      modifies this
      ensures State() == Apply(old(State()), RegenWorkerDone(text)) && Valid()
    {
      if status == Processing {
        summary := Some(text);
        status := Complete;
      }
    }

    /** `cancel_summary`: cancels a pending or processing summary and reports the status. */
    method CancelSummary() returns (reported: Status)
      requires Valid()
      modifies this
      ensures State() == Apply(old(State()), Cancel) && Valid()
      ensures reported == status
    {
      if status == Pending || status == Processing {
        status := Cancelled;
        summary := Some(CancelledSummary);
      }
      reported := status;
    }
  }

  // ------------------------------------------------------------ upload_attachment

  datatype UploadError = NoFilePart | NoFileSelected | TypeNotAllowed

  /**
   * `upload_attachment` once the note is found: refuse a request with no
   * file, an empty name or a refused extension; otherwise store the file
   * under a fresh id and the sanitised name's extension and create a
   * pending attachment. `secure` is `secure_filename`, `id` the new uuid.
   */
  method UploadAttachment(hasFilePart: bool, name: string, secure: string -> string, id: string)
    returns (r: Result<Attachment, UploadError>)
    ensures !hasFilePart ==> r == Err(NoFilePart)
    ensures hasFilePart && name == [] ==> r == Err(NoFileSelected)
    ensures hasFilePart && name != [] && !AllowedFile(name) ==> r == Err(TypeNotAllowed)
    ensures hasFilePart && name != [] && AllowedFile(name) ==>
      && r.Ok? && fresh(r.value)
      && r.value.filename == secure(name)
      && r.value.filepath == StoredName(id, secure(name))
      && r.value.filetype == UploadFiletype(name)
      && r.value.State() == SummaryState(Pending, None)
    // where the sanitiser keeps the accepted extension, this is the filetype the route reads back
    ensures hasFilePart && name != [] && AllowedFile(name) && '.' !in id
            && SplitExt(secure(name)) == "." + AfterLastDot(name).value ==>
      r.Ok? && StoredFiletype(StoredName(id, secure(name))) == Some(r.value.filetype)
  {
    if !hasFilePart {
      return Err(NoFilePart);
    }
    if name == [] {
      return Err(NoFileSelected);
    }
    if !AllowedFile(name) {
      return Err(TypeNotAllowed);
    }
    var original := secure(name);
    var stored := StoredName(id, original);
    var attachment := new Attachment(original, stored, UploadFiletype(name));
    if '.' !in id && SplitExt(original) == "." + AfterLastDot(name).value {
      StoredFiletypeAgrees(id, name, original);
    }
    return Ok(attachment);
  }
}
