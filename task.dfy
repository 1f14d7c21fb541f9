/**
 * UploadTask: the state a caller keeps to resume an upload, and the two
 * questions asked of it: how far along it is and whether it is finished.
 * The feedback is the last answer of a resume probe (Core.VerifyFeedback).
 */
module Tasks {
  import opened Wrappers
  import opened Resumable

  /** UploadTask's fields; Path and Feedback are None for null. */
  datatype UploadTask = UploadTask(done: bool, path: Option<string>, feedback: Option<Feedback>,
                                   lastByte: int, chunkSize: int, maxAttempts: int)

  /** A freshly constructed task: not done, no path, no feedback, nothing
      sent, 10 MiB chunks and at most 10 attempts. */
  const NewTask: UploadTask := UploadTask(false, None, None, 0, 10 * 1024 * 1024, 10)

  /** The float GetProgress returns, without rounding.  A ratio can only be
      taken with a zero ContentSize when LastByte is negative, and the float
      division then yields negative infinity. */
  datatype Single = Finite(value: real) | NegativeInfinity

  /** UploadTask.GetProgress: -1 without feedback, 1 once LastByte has
      reached ContentSize, otherwise LastByte / ContentSize. */
  function GetProgress(t: UploadTask): (p: Single)
    ensures t.feedback.None? ==> p == Finite(-1.0)
    ensures p.NegativeInfinity? <==> t.feedback.Some? && t.feedback.value.contentSize == 0 && t.feedback.value.lastByte < 0
  {
    match t.feedback
    case None => Finite(-1.0)
    case Some(fb) =>
      if fb.lastByte >= fb.contentSize then Finite(1.0)
      else if fb.contentSize == 0 then NegativeInfinity
      else Finite(fb.lastByte as real / fb.contentSize as real)
  }

  /** UploadTask.IsFinished: a done task is finished; otherwise the feedback
      must show LastByte at or past ContentSize. */
  function IsFinished(t: UploadTask): (b: bool)
    ensures t.done ==> b
    ensures t.feedback.None? ==> (b <==> t.done)
  {
    if t.done then true
    else if t.feedback.None? then false
    else t.feedback.value.lastByte >= t.feedback.value.contentSize
  }

  /** A task that is not done is finished exactly when its progress is
      reported as 1. */
  lemma FinishedIffComplete(t: UploadTask)
    requires !t.done
    ensures IsFinished(t) <==> GetProgress(t) == Finite(1.0)
  {
    if t.feedback.Some? {
      var fb := t.feedback.value;
      if fb.lastByte < fb.contentSize && fb.contentSize != 0 {
        var q := fb.lastByte as real / fb.contentSize as real;
        assert q * fb.contentSize as real == fb.lastByte as real;
        assert q != 1.0;
      }
    }
  }

  /** With feedback on a non-empty file and a non-negative LastByte, the
      progress is a fraction between 0 and 1, and 1 only when the last byte
      has been reached. */
  lemma ProgressIsFraction(t: UploadTask)
    requires t.feedback.Some? && t.feedback.value.contentSize > 0 && t.feedback.value.lastByte >= 0
    ensures var p := GetProgress(t);
      && p.Finite? && 0.0 <= p.value <= 1.0
      && (p.value == 1.0 <==> t.feedback.value.lastByte >= t.feedback.value.contentSize)
  {
    var fb := t.feedback.value;
    if fb.lastByte < fb.contentSize {
      var q := fb.lastByte as real / fb.contentSize as real;
      assert q * fb.contentSize as real == fb.lastByte as real;
      assert q < 1.0;
    }
  }

  /** More bytes confirmed never means less progress. */
  lemma ProgressMonotone(t: UploadTask, u: UploadTask)
    requires t.feedback.Some? && u.feedback.Some?
    requires t.feedback.value.contentSize == u.feedback.value.contentSize > 0
    requires 0 <= t.feedback.value.lastByte <= u.feedback.value.lastByte
    ensures GetProgress(t).Finite? && GetProgress(u).Finite?
    ensures GetProgress(t).value <= GetProgress(u).value
  {
    ProgressIsFraction(t);
    ProgressIsFraction(u);
    var n := t.feedback.value.contentSize as real;
    var a := t.feedback.value.lastByte as real;
    var b := u.feedback.value.lastByte as real;
    if b < n {
      assert a / n <= b / n by {
        assert (b - a) / n >= 0.0;
        assert b / n - a / n == (b - a) / n;
      }
    }
  }

  /** A new task reports unknown progress and is not finished. */
  lemma NewTaskUnstarted()
    ensures !NewTask.done && NewTask.chunkSize == 10485760 && NewTask.maxAttempts == 10
    ensures GetProgress(NewTask) == Finite(-1.0) && !IsFinished(NewTask)
  {
  }
}
