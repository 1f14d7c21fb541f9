/**
 * YouTubeHook: the resumable upload loop, the credential refresh on a 40x
 * answer, request routing and the login URL.  The asynchronous copy
 * (RedCorners.Video/YouTube/YouTubeHook.cs) and the synchronous one
 * (RedCorners/YouTube/YouTubeHook.cs) do the same thing step for step and
 * are modelled once.
 *
 * The network is a script: the answers the server gives, in order, one per
 * request (None stands for a fetch that throws).  Token refreshes are a
 * script too (None is a refresh that throws).  The JSON "id" of an answer is
 * read by a function the caller supplies (None when reading it throws).
 */
module YouTube {
  import opened Wrappers
  import opened Text
  import opened Chunks
  import opened Forms
  import opened Http
  import opened Resumable

  /** The exceptions that can leave the hook's methods. */
  datatype HookError =
    | TransportFailed      // the fetch itself throws
    | RefreshFailed        // the token refresh throws
    | Repeated40x          // "Got 40x multiple times."
    | SessionRefused       // "Error getting the upload session."
    | FileNotFound         // the file to upload does not exist
    | NoUploadUrl          // new Uri(null): the session gave no Location
    | PayloadFailed        // GetPayload throws
    | IdUnreadable         // JSON.Parse(result)["id"] throws inside the loop
    | FinalParseFailed     // the same after the loop has stopped
    | FormFailed           // KeyValueToString throws

  function Head<T>(s: seq<T>): Option<T>
  {
    if s == [] then None else Some(s[0])
  }

  function Drop1<T>(s: seq<T>): (r: seq<T>)
    ensures |r| == if s == [] then 0 else |s| - 1
  {
    if s == [] then [] else s[1..]
  }

  // ---------------------------------------------------------------------------
  // The upload loop, as a function of the server's answers
  // ---------------------------------------------------------------------------

  /** The arguments of Upload(path, url, chunkSize, maxAttempts, startByte,
      step) once the file is read and the upload URL known, with the access
      token in force. */
  datatype Config = Config(file: seq<byte>, url: Option<string>, token: string, chunkSize: int,
                           maxAttempts: int, step: bool, extractId: string -> Option<string>)

  /** What a run of the loop does: its outcome (Success(None) is the null
      return), the requests it sends, the feedback it hands to
      UploadCallback, the answers it leaves unread, and whether it reached
      the reset of unauthorizedAttempts. */
  datatype Run = Run(outcome: Result<Option<string>, HookError>, sent: seq<Request>,
                     callbacks: seq<Feedback>, rest: seq<Option<Response>>, reset: bool)

  /** The catch block: count the attempt, return null past maxAttempts,
      rethrow otherwise. */
  function Caught(attempts: int, maxAttempts: int, e: HookError): Result<Option<string>, HookError>
  {
    if attempts + 1 > maxAttempts then Success(None) else Failure(e)
  }

  /** After the loop stops: the "id" of the last chunk answer, read outside
      the try block. */
  function FinalId(c: Config, result: Option<string>): Result<Option<string>, HookError>
  {
    if result.None? || c.extractId(result.value).None? then Failure(FinalParseFailed)
    else Success(c.extractId(result.value))
  }

  function ProbeOf(c: Config): Request
    requires c.url.Some?
  {
    ProbeRequest(c.url.value, c.token, |c.file|)
  }

  function ChunkOf(c: Config, cursor: int): Request
    requires c.url.Some? && Payload(c.file, cursor, Some(c.chunkSize)).Success?
  {
    ChunkRequest(c.url.value, c.token, |c.file|, cursor, Payload(c.file, cursor, Some(c.chunkSize)).value)
  }

  /** The loop from a cursor, an attempt count and the last chunk answer:
      probe; take the probed LastByte as the cursor, resetting the attempt
      count when it moved on by more than 1024 bytes; report; then go on
      with the chunk half of the round. */
  function Loop(c: Config, cursor: int, attempts: int, result: Option<string>, replies: seq<Option<Response>>): (r: Run)
    decreases |replies|, 1
  {
    if c.url.None? then Run(Caught(attempts, c.maxAttempts, NoUploadUrl), [], [], replies, false)
    else if Answer(replies).None? then
      Run(Caught(attempts, c.maxAttempts, TransportFailed), [ProbeOf(c)], [], Drop1(replies), false)
    else
      var fb := ProbeFeedback(Answer(replies).value.fields);
      var attempts' := if cursor + 1024 < fb.lastByte then 0 else attempts;
      var rest := ChunkHalf(c, fb.lastByte, attempts', result, replies[1..]);
      Run(rest.outcome, [ProbeOf(c)] + rest.sent, [fb.(contentSize := |c.file|)] + rest.callbacks, rest.rest, rest.reset)
  }

  /** The rest of a round, from the probed cursor: stop when the server
      holds the whole file; otherwise send one chunk from the cursor and
      return its id when the answer is not blank, or return "" in step
      mode, or go round again. */
  function ChunkHalf(c: Config, cursor: int, attempts: int, result: Option<string>, replies: seq<Option<Response>>): (r: Run)
    requires c.url.Some?
    decreases |replies|, 0
  {
    if cursor >= |c.file| then Run(FinalId(c, result), [], [], replies, false)
    else if Payload(c.file, cursor, Some(c.chunkSize)).Failure? then
      Run(Caught(attempts, c.maxAttempts, PayloadFailed), [], [], replies, false)
    else if Answer(replies).None? then
      Run(Caught(attempts, c.maxAttempts, TransportFailed), [ChunkOf(c, cursor)], [], Drop1(replies), false)
    else
      var text := Answer(replies).value.text;
      if !AllWhiteSpace(text) then
        if c.extractId(text).Some? then Run(Success(c.extractId(text)), [ChunkOf(c, cursor)], [], replies[1..], false)
        else Run(Caught(attempts, c.maxAttempts, IdUnreadable), [ChunkOf(c, cursor)], [], replies[1..], false)
      else if c.step then Run(Success(Some("")), [ChunkOf(c, cursor)], [], replies[1..], true)
      else
        var next := Loop(c, cursor, attempts, Some(text), replies[1..]);
        Run(next.outcome, [ChunkOf(c, cursor)] + next.sent, next.callbacks, next.rest, true)
  }

  /** The hook's log and scripts after a run that ended with outcome: the
      run's requests and feedback appended, its unused replies left, and
      the attempt counter zeroed when the run reached the reset. */
  ghost predicate Ended(run: Run, outcome: Result<Option<string>, HookError>,
                        sent0: seq<Request>, callbacks0: seq<Feedback>, counter0: int,
                        sent: seq<Request>, callbacks: seq<Feedback>, replies: seq<Option<Response>>, counter: int)
  {
    && outcome == run.outcome && sent == sent0 + run.sent && callbacks == callbacks0 + run.callbacks
    && replies == run.rest && counter == (if run.reset then 0 else counter0)
  }

  /** The case in which the loop goes round again: the probe is answered
      and reports part of the file, the chunk is read and sent, and its
      answer is blank, outside step mode. */
  predicate Continues(c: Config, replies: seq<Option<Response>>)
  {
    && c.url.Some? && |replies| >= 2 && replies[0].Some? && replies[1].Some?
    && ProbeFeedback(replies[0].value.fields).lastByte < |c.file|
    && Payload(c.file, ProbeFeedback(replies[0].value.fields).lastByte, Some(c.chunkSize)).Success?
    && AllWhiteSpace(replies[1].value.text) && !c.step
  }


  lemma LoopUnfold(c: Config, cursor: int, attempts: int, result: Option<string>, replies: seq<Option<Response>>)
    requires Continues(c, replies)
    ensures var fb := ProbeFeedback(replies[0].value.fields);
      var attempts' := if cursor + 1024 < fb.lastByte then 0 else attempts;
      var next := Loop(c, fb.lastByte, attempts', Some(replies[1].value.text), replies[2..]);
      Loop(c, cursor, attempts, result, replies) ==
        Run(next.outcome, [ProbeOf(c), ChunkOf(c, fb.lastByte)] + next.sent,
            [fb.(contentSize := |c.file|)] + next.callbacks, next.rest, true)
  {
    var fb := ProbeFeedback(replies[0].value.fields);
    var attempts' := if cursor + 1024 < fb.lastByte then 0 else attempts;
    var tail := replies[1..];
    assert tail[0] == replies[1] && tail[1..] == replies[2..];
    ProbeThenChunk(c, cursor, attempts, result, replies);
    ChunkGoesRound(c, fb.lastByte, attempts', result, tail);
    RoundCompose(Loop(c, cursor, attempts, result, replies), ChunkHalf(c, fb.lastByte, attempts', result, tail),
                 Loop(c, fb.lastByte, attempts', Some(replies[1].value.text), replies[2..]),
                 ProbeOf(c), ChunkOf(c, fb.lastByte), fb.(contentSize := |c.file|));
  }

  /** A probe step in front of a chunk step that goes round again. */
  lemma RoundCompose(run: Run, rest: Run, next: Run, probe: Request, chunk: Request, seen: Feedback)
    requires run == Run(rest.outcome, [probe] + rest.sent, [seen] + rest.callbacks, rest.rest, rest.reset)
    requires rest == Run(next.outcome, [chunk] + next.sent, next.callbacks, next.rest, true)
    ensures run == Run(next.outcome, [probe, chunk] + next.sent, [seen] + next.callbacks, next.rest, true)
  {
    assert [probe] + ([chunk] + next.sent) == [probe, chunk] + next.sent;
  }

  /** Once the probe is answered, a round is the probe, its feedback and
      the chunk half from the probed cursor. */
  lemma ProbeThenChunk(c: Config, cursor: int, attempts: int, result: Option<string>, replies: seq<Option<Response>>)
    requires c.url.Some? && Answer(replies).Some?
    ensures var fb := ProbeFeedback(Answer(replies).value.fields);
      var attempts' := if cursor + 1024 < fb.lastByte then 0 else attempts;
      var rest := ChunkHalf(c, fb.lastByte, attempts', result, replies[1..]);
      Loop(c, cursor, attempts, result, replies) ==
        Run(rest.outcome, [ProbeOf(c)] + rest.sent, [fb.(contentSize := |c.file|)] + rest.callbacks, rest.rest, rest.reset)
  {
  }

  /** A run that ends in the chunk half ends the whole round with the
      probe and its feedback logged in front. */
  lemma ChunkExitEnds(c: Config, cursor: int, attempts: int, result: Option<string>, replies0: seq<Option<Response>>,
                      sent0: seq<Request>, callbacks0: seq<Feedback>, counter0: int,
                      outcome: Result<Option<string>, HookError>,
                      sent: seq<Request>, callbacks: seq<Feedback>, replies: seq<Option<Response>>, counter: int)
    requires c.url.Some? && Answer(replies0).Some?
    requires var fb := ProbeFeedback(Answer(replies0).value.fields);
      var attempts' := if cursor + 1024 < fb.lastByte then 0 else attempts;
      Ended(ChunkHalf(c, fb.lastByte, attempts', result, replies0[1..]), outcome,
            sent0 + [ProbeOf(c)], callbacks0 + [fb.(contentSize := |c.file|)], counter0,
            sent, callbacks, replies, counter)
    ensures Ended(Loop(c, cursor, attempts, result, replies0), outcome, sent0, callbacks0, counter0,
                  sent, callbacks, replies, counter)
  {
    var fb := ProbeFeedback(Answer(replies0).value.fields);
    var seen := fb.(contentSize := |c.file|);
    var rest := ChunkHalf(c, fb.lastByte, if cursor + 1024 < fb.lastByte then 0 else attempts, result, replies0[1..]);
    ProbeThenChunk(c, cursor, attempts, result, replies0);
    EndedCons(rest, Loop(c, cursor, attempts, result, replies0), ProbeOf(c), seen, outcome,
              sent0, callbacks0, counter0, sent, callbacks, replies, counter);
  }

  lemma EndedCons(rest: Run, run: Run, probe: Request, seen: Feedback, outcome: Result<Option<string>, HookError>,
                  sent0: seq<Request>, callbacks0: seq<Feedback>, counter0: int,
                  sent: seq<Request>, callbacks: seq<Feedback>, replies: seq<Option<Response>>, counter: int)
    requires run == Run(rest.outcome, [probe] + rest.sent, [seen] + rest.callbacks, rest.rest, rest.reset)
    requires Ended(rest, outcome, sent0 + [probe], callbacks0 + [seen], counter0, sent, callbacks, replies, counter)
    ensures Ended(run, outcome, sent0, callbacks0, counter0, sent, callbacks, replies, counter)
  {
    assert sent0 + ([probe] + rest.sent) == (sent0 + [probe]) + rest.sent;
    assert callbacks0 + ([seen] + rest.callbacks) == (callbacks0 + [seen]) + rest.callbacks;
  }

  /** A blank chunk answer outside step mode goes round again. */
  lemma ChunkGoesRound(c: Config, cursor: int, attempts: int, result: Option<string>, replies: seq<Option<Response>>)
    requires c.url.Some? && cursor < |c.file| && Payload(c.file, cursor, Some(c.chunkSize)).Success?
    requires |replies| >= 1 && replies[0].Some? && AllWhiteSpace(replies[0].value.text) && !c.step
    ensures var next := Loop(c, cursor, attempts, Some(replies[0].value.text), replies[1..]);
      ChunkHalf(c, cursor, attempts, result, replies) ==
        Run(next.outcome, [ChunkOf(c, cursor)] + next.sent, next.callbacks, next.rest, true)
  {
  }

  /** A full round joins the requests and feedback of the next run to
      those already logged. */
  lemma RoundJoins(c: Config, cursor: int, attempts: int, result: Option<string>, replies: seq<Option<Response>>,
                   sent0: seq<Request>, callbacks0: seq<Feedback>)
    requires Continues(c, replies)
    ensures var fb := ProbeFeedback(replies[0].value.fields);
      var attempts' := if cursor + 1024 < fb.lastByte then 0 else attempts;
      var cur := Loop(c, cursor, attempts, result, replies);
      var next := Loop(c, fb.lastByte, attempts', Some(replies[1].value.text), replies[2..]);
      && cur.outcome == next.outcome && cur.rest == next.rest && cur.reset
      && sent0 + cur.sent == (sent0 + [ProbeOf(c), ChunkOf(c, fb.lastByte)]) + next.sent
      && callbacks0 + cur.callbacks == (callbacks0 + [fb.(contentSize := |c.file|)]) + next.callbacks
  {
    LoopUnfold(c, cursor, attempts, result, replies);
  }

  /** A run that does not go round again sends at most a probe and a chunk
      and reports at most one feedback, stamped with the file length. */
  lemma LoopStops(c: Config, cursor: int, attempts: int, result: Option<string>, replies: seq<Option<Response>>)
    requires !Continues(c, replies)
    ensures var r := Loop(c, cursor, attempts, result, replies);
      && (c.url.None? ==> r.sent == [] && r.callbacks == [])
      && |r.callbacks| <= |r.sent| <= 2 * |r.callbacks| + 1 && |r.callbacks| <= 1 && |r.sent| <= 2
      && (r.sent != [] ==> c.url.Some? && r.sent[0] == ProbeOf(c))
      && (r.callbacks != [] ==> r.callbacks[0] == ProbeFeedback(replies[0].value.fields).(contentSize := |c.file|))
      && (|r.sent| == 2 ==>
            |r.callbacks| == 1 && Payload(c.file, r.callbacks[0].lastByte, Some(c.chunkSize)).Success?
            && r.sent[1] == ChunkOf(c, r.callbacks[0].lastByte))
  {
    if c.url.Some? && Answer(replies).Some? {
      var fb := ProbeFeedback(replies[0].value.fields);
      ProbeThenChunk(c, cursor, attempts, result, replies);
      if |replies| >= 2 {
        assert replies[1..][0] == replies[1];
      }
      ChunkHalfStops(c, fb.lastByte, if cursor + 1024 < fb.lastByte then 0 else attempts, result, replies[1..]);
    }
  }

  /** A chunk half that does not go round again sends at most its one
      chunk and reports nothing. */
  lemma ChunkHalfStops(c: Config, cursor: int, attempts: int, result: Option<string>, replies: seq<Option<Response>>)
    requires c.url.Some?
    requires !(&& cursor < |c.file| && Payload(c.file, cursor, Some(c.chunkSize)).Success?
               && |replies| >= 1 && replies[0].Some? && AllWhiteSpace(replies[0].value.text) && !c.step)
    ensures var r := ChunkHalf(c, cursor, attempts, result, replies);
      && r.callbacks == [] && |r.sent| <= 1
      && (r.sent != [] ==> Payload(c.file, cursor, Some(c.chunkSize)).Success? && r.sent[0] == ChunkOf(c, cursor))
  {
  }

  /** The shape of a run's log: requests alternate probe, chunk; the k-th
      chunk starts at the LastByte of the k-th probe (the inclusive last
      byte the server holds, taken as the cursor) and carries the
      GetPayload bytes from there; every feedback is stamped with the file
      length; and only the last probe may report the whole file held. */
  ghost predicate Shaped(c: Config, sent: seq<Request>, callbacks: seq<Feedback>)
  {
    && |callbacks| <= |sent| <= 2 * |callbacks| + 1
    && (forall k :: 0 <= k < |sent| && k % 2 == 0 ==> c.url.Some? && sent[k] == ProbeOf(c))
    && (forall k :: 0 <= k < |callbacks| ==> callbacks[k].contentSize == |c.file|)
    && (forall k :: 0 <= k < |callbacks| && 2 * k + 1 < |sent| ==>
          c.url.Some? && Payload(c.file, callbacks[k].lastByte, Some(c.chunkSize)).Success?
          && sent[2 * k + 1] == ChunkOf(c, callbacks[k].lastByte))
    && (forall k :: 0 <= k < |callbacks| - 1 ==> callbacks[k].lastByte < |c.file|)
  }

  /** Every run has the shape, and a run without an upload URL sends
      nothing. */
  lemma {:induction false} LoopShape(c: Config, cursor: int, attempts: int, result: Option<string>, replies: seq<Option<Response>>)
    ensures var r := Loop(c, cursor, attempts, result, replies);
      && (c.url.None? ==> r.sent == [] && r.callbacks == [])
      && Shaped(c, r.sent, r.callbacks)
    decreases |replies|
  {
    if !Continues(c, replies) {
      LoopStops(c, cursor, attempts, result, replies);
      var r := Loop(c, cursor, attempts, result, replies);
      ShapeOfStop(c, r.sent, r.callbacks);
    } else {
      var fb := ProbeFeedback(replies[0].value.fields);
      var attempts' := if cursor + 1024 < fb.lastByte then 0 else attempts;
      LoopUnfold(c, cursor, attempts, result, replies);
      LoopShape(c, fb.lastByte, attempts', Some(replies[1].value.text), replies[2..]);
      var next := Loop(c, fb.lastByte, attempts', Some(replies[1].value.text), replies[2..]);
      ShapeCons(c, next.sent, next.callbacks, fb.(contentSize := |c.file|));
    }
  }

  /** A log of at most a probe and its chunk has the shape. */
  lemma ShapeOfStop(c: Config, sent: seq<Request>, callbacks: seq<Feedback>)
    requires |callbacks| <= |sent| <= 2 * |callbacks| + 1 && |callbacks| <= 1 && |sent| <= 2
    requires sent != [] ==> c.url.Some? && sent[0] == ProbeOf(c)
    requires callbacks != [] ==> callbacks[0].contentSize == |c.file|
    requires |sent| == 2 ==>
      |callbacks| == 1 && Payload(c.file, callbacks[0].lastByte, Some(c.chunkSize)).Success?
      && sent[1] == ChunkOf(c, callbacks[0].lastByte)
    ensures Shaped(c, sent, callbacks)
  {
    forall k | 0 <= k < |sent| && k % 2 == 0
      ensures c.url.Some? && sent[k] == ProbeOf(c)
    {
      assert k == 0;
    }
    forall k | 0 <= k < |callbacks| && 2 * k + 1 < |sent|
      ensures c.url.Some? && Payload(c.file, callbacks[k].lastByte, Some(c.chunkSize)).Success?
      ensures sent[2 * k + 1] == ChunkOf(c, callbacks[k].lastByte)
    {
      assert k == 0;
    }
  }

  /** Putting one full round in front of a log that has the shape keeps the
      shape. */
  lemma ShapeCons(c: Config, sent: seq<Request>, callbacks: seq<Feedback>, seen: Feedback)
    requires c.url.Some? && seen.lastByte < |c.file| && seen.contentSize == |c.file|
    requires Payload(c.file, seen.lastByte, Some(c.chunkSize)).Success?
    requires Shaped(c, sent, callbacks)
    ensures Shaped(c, [ProbeOf(c), ChunkOf(c, seen.lastByte)] + sent, [seen] + callbacks)
  {
    ProbesCons(c, sent, ChunkOf(c, seen.lastByte));
    ChunksCons(c, sent, callbacks, seen);
  }

  lemma ProbesCons(c: Config, sent: seq<Request>, chunk: Request)
    requires c.url.Some?
    requires forall k :: 0 <= k < |sent| && k % 2 == 0 ==> sent[k] == ProbeOf(c)
    ensures var sent' := [ProbeOf(c), chunk] + sent;
      forall k :: 0 <= k < |sent'| && k % 2 == 0 ==> sent'[k] == ProbeOf(c)
  {
    var sent' := [ProbeOf(c), chunk] + sent;
    forall k | 0 <= k < |sent'| && k % 2 == 0
      ensures sent'[k] == ProbeOf(c)
    {
      if k >= 2 {
        assert sent'[k] == sent[k - 2];
      }
    }
  }

  lemma ChunksCons(c: Config, sent: seq<Request>, callbacks: seq<Feedback>, seen: Feedback)
    requires c.url.Some? && Payload(c.file, seen.lastByte, Some(c.chunkSize)).Success?
    requires forall k :: 0 <= k < |callbacks| && 2 * k + 1 < |sent| ==>
      Payload(c.file, callbacks[k].lastByte, Some(c.chunkSize)).Success?
      && sent[2 * k + 1] == ChunkOf(c, callbacks[k].lastByte)
    ensures var sent' := [ProbeOf(c), ChunkOf(c, seen.lastByte)] + sent; var callbacks' := [seen] + callbacks;
      forall k :: 0 <= k < |callbacks'| && 2 * k + 1 < |sent'| ==>
        Payload(c.file, callbacks'[k].lastByte, Some(c.chunkSize)).Success?
        && sent'[2 * k + 1] == ChunkOf(c, callbacks'[k].lastByte)
  {
    var sent' := [ProbeOf(c), ChunkOf(c, seen.lastByte)] + sent;
    var callbacks' := [seen] + callbacks;
    forall k | 0 <= k < |callbacks'| && 2 * k + 1 < |sent'|
      ensures Payload(c.file, callbacks'[k].lastByte, Some(c.chunkSize)).Success?
      ensures sent'[2 * k + 1] == ChunkOf(c, callbacks'[k].lastByte)
    {
      if k >= 1 {
        assert callbacks'[k] == callbacks[k - 1];
        assert sent'[2 * k + 1] == sent[2 * (k - 1) + 1];
      }
    }
  }

  /** Errors are not retried: the attempt count is 0 whenever the catch
      block runs, so the loop returns null only when maxAttempts is below 1,
      and with maxAttempts below 1 the only exception that escapes is the
      one thrown after the loop. */
  lemma {:induction false} NullOnlyWithoutAttempts(c: Config, cursor: int, result: Option<string>, replies: seq<Option<Response>>)
    ensures var r := Loop(c, cursor, 0, result, replies);
      && (r.outcome == Success(None) ==> c.maxAttempts < 1)
      && (c.maxAttempts < 1 && r.outcome.Failure? ==> r.outcome.error == FinalParseFailed)
    decreases |replies|
  {
    if Continues(c, replies) {
      var fb := ProbeFeedback(replies[0].value.fields);
      LoopUnfold(c, cursor, 0, result, replies);
      NullOnlyWithoutAttempts(c, fb.lastByte, Some(replies[1].value.text), replies[2..]);
    } else if c.url.Some? && Answer(replies).Some? {
      ProbeThenChunk(c, cursor, 0, result, replies);
      if |replies| >= 2 {
        assert replies[1..][0] == replies[1];
      }
    }
  }

  /** In step mode at most one probe and one chunk go out. */
  lemma StepSendsOneChunk(c: Config, cursor: int, attempts: int, result: Option<string>, replies: seq<Option<Response>>)
    requires c.step
    ensures |Loop(c, cursor, attempts, result, replies).sent| <= 2
    ensures |Loop(c, cursor, attempts, result, replies).callbacks| <= 1
  {
  }

  /** The chunk half from a cursor inside the file sends the chunk from
      there first. */
  lemma ChunkHalfSends(c: Config, cursor: int, attempts: int, result: Option<string>, replies: seq<Option<Response>>)
    requires c.url.Some? && 0 <= cursor < |c.file|
    ensures Payload(c.file, cursor, Some(c.chunkSize)).Success?
    ensures var r := ChunkHalf(c, cursor, attempts, result, replies);
      |r.sent| >= 1 && r.sent[0] == ChunkOf(c, cursor)
  {
  }

  /** A chunk answer that is not blank ends the loop after that one chunk:
      with the id read from the answer, or, when no id can be read, with the
      caught exception (rethrown unless the attempts are used up, then null). */
  lemma ChunkAnswerEnds(c: Config, cursor: int, attempts: int, result: Option<string>,
                        answer: Response, rest: seq<Option<Response>>)
    requires c.url.Some? && 0 <= cursor < |c.file| && !AllWhiteSpace(answer.text)
    ensures var r := ChunkHalf(c, cursor, attempts, result, [Some(answer)] + rest);
      && r.sent == [ChunkOf(c, cursor)] && r.callbacks == [] && r.rest == rest && !r.reset
      && (c.extractId(answer.text).Some? ==> r.outcome == Success(c.extractId(answer.text)))
      && (c.extractId(answer.text).None? && attempts + 1 <= c.maxAttempts ==> r.outcome == Failure(IdUnreadable))
      && (c.extractId(answer.text).None? && attempts + 1 > c.maxAttempts ==> r.outcome == Success(None))
  {
    assert ([Some(answer)] + rest)[1..] == rest;
  }

  /** A probe that reports the whole file held ends the loop at once: no
      chunk goes out and the id is read from the last chunk answer. */
  lemma CompleteProbeStops(c: Config, cursor: int, attempts: int, result: Option<string>,
                           fields: seq<string>, text: string, rest: seq<Option<Response>>)
    requires c.url.Some? && ProbeFeedback(fields).lastByte >= |c.file|
    ensures var r := Loop(c, cursor, attempts, result, [Some(Response(fields, text))] + rest);
      r.sent == [ProbeOf(c)] && r.outcome == FinalId(c, result) && r.rest == rest
  {
    assert ([Some(Response(fields, text))] + rest)[1..] == rest;
  }

  /** A 2xx probe leaves LastByte at the still-zero ContentSize, so on a
      non-empty file the loop sends the file again from byte 0 instead of
      stopping. */
  lemma OkProbeRestarts(c: Config, cursor: int, attempts: int, result: Option<string>,
                        fields: seq<string>, text: string, rest: seq<Option<Response>>)
    requires c.url.Some? && ProbeOk(fields) && |c.file| > 0
    ensures var r := Loop(c, cursor, attempts, result, [Some(Response(fields, text))] + rest);
      |r.sent| >= 2 && r.callbacks[0].lastByte == 0
      && r.sent[1] == ChunkRequest(c.url.value, c.token, |c.file|, 0, Payload(c.file, 0, Some(c.chunkSize)).value)
  {
    var replies := [Some(Response(fields, text))] + rest;
    assert replies[1..] == rest;
    ProbeThenChunk(c, cursor, attempts, result, replies);
    var fb := ProbeFeedback(fields);
    ChunkHalfSends(c, fb.lastByte, if cursor + 1024 < fb.lastByte then 0 else attempts, result, rest);
  }

  /** Resuming after "Range: bytes=0-L": the next chunk starts at L, the
      last byte the server already holds, so that byte is sent twice. */
  lemma ResumeResendsLastByte(c: Config, cursor: int, attempts: int, result: Option<string>,
                              status: string, last: nat, text: string, rest: seq<Option<Response>>)
    requires c.url.Some? && last < |c.file| && last <= Int64Max
    requires !Contains(status, " 20") && !StartsWith(status, "Range:")
    ensures var fields := [status] + [RangeLine(0, last)];
      var r := Loop(c, cursor, attempts, result, [Some(Response(fields, text))] + rest);
      |r.sent| >= 2 && r.callbacks[0] == Feedback(0, last, |c.file|)
      && r.sent[1] == ChunkRequest(c.url.value, c.token, |c.file|, last, Payload(c.file, last, Some(c.chunkSize)).value)
  {
    var fields := [status] + [RangeLine(0, last)];
    ResumeIncompleteReadsRange(status, 0, last, []);
    assert [status] + [] + [RangeLine(0, last)] == fields;
    var replies := [Some(Response(fields, text))] + rest;
    assert replies[1..] == rest;
    ProbeThenChunk(c, cursor, attempts, result, replies);
    var fb := ProbeFeedback(fields);
    ChunkHalfSends(c, fb.lastByte, if cursor + 1024 < fb.lastByte then 0 else attempts, result, rest);
  }

  // ---------------------------------------------------------------------------
  // Requests with one credential refresh (RequestRaw, GetUploadSessionUrl)
  // ---------------------------------------------------------------------------

  /** The next answer of the script; None when the fetch throws or the
      script has run out. */
  function Answer(rs: seq<Option<Response>>): Option<Response>
  {
    if rs == [] then None else rs[0]
  }

  /** The next refreshed token; None when the refresh throws (the token
      endpoint fails or answers with fewer than four fields). */
  function Grant(gs: seq<Option<string>>): Option<string>
  {
    if gs == [] then None else gs[0]
  }

  /** What one call does to the hook: its outcome, the requests it sends,
      and the unauthorizedAttempts counter, access token and scripts it
      leaves behind. */
  datatype Exchange<T> = Exchange(outcome: Result<T, HookError>, sent: seq<Request>, counter: int, token: string,
                                  replies: seq<Option<Response>>, grants: seq<Option<string>>)

  /** The request RequestRaw builds: the verb upper-cased, the URL prefixed
      with the override root (the API root when the override is null), a
      single Authorization header, the body as a string payload and the
      Content-Type RequestRaw chooses. */
  function RawRequest(apiRoot: string, token: string, url: string, verb: string, jsonBody: bool,
                      body: Option<string>, overrideApiRoot: Option<string>, host: Option<string>): Request
  {
    var (bytes, cl) := StringBody(body);
    var root := if overrideApiRoot.None? then apiRoot else overrideApiRoot.value;
    Request(Upper(verb), root + url, [Authorization(token)], bytes, cl, ContentTypeForText(jsonBody, body), host)
  }

  /** RequestRaw after the request is built: send it; on a 40x (or an
      answer with no status line) refresh the token once and send the very
      same request again, or throw when a refresh is already under way. */
  function RawExchange(req: Request, counter: int, token: string,
                       replies: seq<Option<Response>>, grants: seq<Option<string>>): Exchange<string>
  {
    var first := Answer(replies);
    var rs := Drop1(replies);
    if first.None? then Exchange(Failure(TransportFailed), [req], counter, token, rs, grants)
    else if !Unauthorized(first.value.fields) then Exchange(Success(first.value.text), [req], counter, token, rs, grants)
    else if counter != 0 then Exchange(Failure(Repeated40x), [req], counter, token, rs, grants)
    else
      var grant := Grant(grants);
      if grant.None? then Exchange(Failure(RefreshFailed), [req], 1, token, rs, Drop1(grants))
      else
        var second := Answer(rs);
        if second.None? then Exchange(Failure(TransportFailed), [req, req], 1, grant.value, Drop1(rs), Drop1(grants))
        else Exchange(Success(second.value.text), [req, req], 0, grant.value, Drop1(rs), Drop1(grants))
  }

  /** RequestRaw sends its request once, or twice after a 40x; the resend
      is the same request, built before the refresh; a second send happens
      exactly when the first answer is a 40x, the counter is 0 and the
      refresh succeeds; and "Got 40x multiple times." is thrown exactly when
      a 40x arrives while the counter is not 0. */
  lemma RawSendsAtMostTwice(req: Request, counter: int, token: string,
                            replies: seq<Option<Response>>, grants: seq<Option<string>>)
    ensures var e := RawExchange(req, counter, token, replies, grants);
      && 1 <= |e.sent| <= 2
      && (forall k :: 0 <= k < |e.sent| ==> e.sent[k] == req)
      && (|e.sent| == 2 <==>
            Answer(replies).Some? && Unauthorized(Answer(replies).value.fields) && counter == 0 && Grant(grants).Some?)
      && (e.outcome == Failure(Repeated40x) <==>
            Answer(replies).Some? && Unauthorized(Answer(replies).value.fields) && counter != 0)
      && (counter != 0 ==> e.grants == grants && e.token == token && e.counter == counter)
  {
  }

  /** The resend after a refresh still carries the old token, while the
      hook keeps the new one; the counter is back to 0 only when the resend
      itself is answered. */
  lemma RawResendsStaleToken(url: string, verb: string, jsonBody: bool, body: Option<string>,
                             apiRoot: string, token: string, renewed: string, fields: seq<string>, text: string,
                             rest: seq<Option<Response>>, grants: seq<Option<string>>)
    requires Unauthorized(fields) && Grant(grants) == Some(renewed)
    ensures var req := RawRequest(apiRoot, token, url, verb, jsonBody, body, None, None);
      var e := RawExchange(req, 0, token, [Some(Response(fields, text))] + rest, grants);
      && e.sent[1].headers == [Authorization(token)]
      && e.token == renewed
      && (e.counter == 0 <==> Answer(rest).Some?)
      && (Answer(rest).Some? ==> e.outcome == Success(Answer(rest).value.text))
  {
  }

  /** GetUploadSessionUrl(FileInfo): on a 40x refresh once and call itself
      again, building the request anew with the refreshed token; the answer
      is the Location header (None for null). */
  function SessionExchange(clientId: string, token: string, fileLength: int, counter: int,
                           replies: seq<Option<Response>>, grants: seq<Option<string>>): Exchange<Option<string>>
    decreases if counter == 0 then 1 else 0
  {
    var req := SessionRequest(clientId, token, fileLength);
    var first := Answer(replies);
    var rs := Drop1(replies);
    if first.None? then Exchange(Failure(TransportFailed), [req], counter, token, rs, grants)
    else if !Unauthorized(first.value.fields) then
      Exchange(Success(HeaderValue(first.value.fields, "Location")), [req], counter, token, rs, grants)
    else if counter != 0 then Exchange(Failure(SessionRefused), [req], counter, token, rs, grants)
    else
      var grant := Grant(grants);
      if grant.None? then Exchange(Failure(RefreshFailed), [req], 1, token, rs, Drop1(grants))
      else
        var inner := SessionExchange(clientId, grant.value, fileLength, 1, rs, Drop1(grants));
        Exchange(inner.outcome, [req] + inner.sent, if inner.outcome.Success? then 0 else inner.counter,
                 inner.token, inner.replies, inner.grants)
  }

  /** The session is asked for at most twice, the second time only after a
      40x with the counter at 0; a second 40x throws "Error getting the
      upload session."; a success leaves the counter at 0 when it started
      there. */
  lemma SessionAtMostTwice(clientId: string, token: string, fileLength: int, counter: int,
                           replies: seq<Option<Response>>, grants: seq<Option<string>>)
    ensures var e := SessionExchange(clientId, token, fileLength, counter, replies, grants);
      && 1 <= |e.sent| <= 2
      && e.sent[0] == SessionRequest(clientId, token, fileLength)
      && (|e.sent| == 2 ==>
            counter == 0 && Unauthorized(Answer(replies).value.fields) && Grant(grants).Some?
            && e.sent[1] == SessionRequest(clientId, Grant(grants).value, fileLength))
      && (counter != 0 ==> |e.sent| == 1)
      && (counter == 0 && e.outcome.Success? ==> e.counter == 0)
  {
  }

  /** A session answered without a 40x gives the Location header. */
  lemma SessionAnswered(clientId: string, token: string, fileLength: int, counter: int,
                        fields: seq<string>, text: string, rest: seq<Option<Response>>, grants: seq<Option<string>>)
    requires !Unauthorized(fields)
    ensures SessionExchange(clientId, token, fileLength, counter, [Some(Response(fields, text))] + rest, grants)
         == Exchange(Success(HeaderValue(fields, "Location")), [SessionRequest(clientId, token, fileLength)],
                     counter, token, rest, grants)
  {
    assert Drop1([Some(Response(fields, text))] + rest) == rest;
  }

  /** The Location line reads back as the upload URL. */
  lemma LocationReadsBack(status: string, location: string)
    requires !Contains(status, "Location")
    requires location == [] || (!IsWhiteSpace(location[0]) && !IsWhiteSpace(location[|location| - 1]))
    ensures HeaderValue([status, "Location: " + location], "Location") == Some(location)
  {
    var name := "Location";
    var line := name + ": " + location;
    assert line == "Location: " + location by {
      assert name + ": " == "Location: ";
    }
    HeaderValueRoundTrip([status], name, location, []);
    assert [status] + [line] + [] == [status, line];
  }

  /** A session answered with "Location: u" after one refresh: two
      requests, the second with the refreshed token, and u as the upload
      URL. */
  lemma SessionAfterRefresh(clientId: string, token: string, renewed: string, fileLength: int,
                            denied: seq<string>, status: string, location: string, text1: string, text2: string,
                            rest: seq<Option<Response>>, grants: seq<Option<string>>)
    requires Unauthorized(denied) && Grant(grants) == Some(renewed)
    requires !Contains(status, " 40") && !Contains(status, "Location")
    requires location == [] || (!IsWhiteSpace(location[0]) && !IsWhiteSpace(location[|location| - 1]))
    ensures var replies := [Some(Response(denied, text1)), Some(Response([status, "Location: " + location], text2))] + rest;
      var e := SessionExchange(clientId, token, fileLength, 0, replies, grants);
      && e.sent == [SessionRequest(clientId, token, fileLength), SessionRequest(clientId, renewed, fileLength)]
      && e.outcome == Success(Some(location)) && e.counter == 0 && e.token == renewed && e.replies == rest
  {
    var answer := Response([status, "Location: " + location], text2);
    var replies := [Some(Response(denied, text1))] + ([Some(answer)] + rest);
    assert replies == [Some(Response(denied, text1)), Some(answer)] + rest;
    assert Drop1(replies) == [Some(answer)] + rest;
    SessionAnswered(clientId, renewed, fileLength, 1, answer.fields, text2, rest, Drop1(grants));
    LocationReadsBack(status, location);
  }

  // ---------------------------------------------------------------------------
  // Parameter routing (RequestAsync with a dictionary of parameters)
  // ---------------------------------------------------------------------------

  /** The verbs whose parameters travel in the body. */
  predicate BodyVerb(verb: string)
  {
    verb == "POST" || verb == "PATCH" || verb == "PUT" || verb == "DELETE"
  }

  /** The URL and body RequestAsync hands on: a GET puts the form-encoded
      parameters in the query, a body verb carries them as JSON (jsonText
      stands for Core.JsonEncode) or as a form, and any other verb drops
      them.  The verb is compared as given, before RequestRaw upper-cases
      it. */
  function Route(url: string, parameters: Option<seq<(string, Value)>>, verb: string, jsonBody: bool,
                 jsonText: string): Result<(string, string), FormError>
  {
    if parameters.None? || |parameters.value| == 0 then Success((url, ""))
    else if verb == "GET" then
      match FormBody(parameters.value)
      case Failure(e) => Failure(e)
      case Success(q) => Success((url + "?" + q, ""))
    else if BodyVerb(verb) then
      if jsonBody then Success((url, jsonText))
      else
        match FormBody(parameters.value)
        case Failure(e) => Failure(e)
        case Success(b) => Success((url, b))
    else Success((url, ""))
  }

  /** A GET carries its parameters as the query: the URL is extended with
      '?' and a query from which every leaf is read back, in order. */
  lemma GetRoutesToQuery(url: string, payload: seq<(string, Value)>, jsonBody: bool, jsonText: string)
    requires payload != [] && WellFormed(Dict(payload))
    requires NarrowLeaves(LeavesOf("", Dict(payload), |payload|))
    ensures var r := Route(url, Some(payload), "GET", jsonBody, jsonText);
      && r.Success? && r.value.1 == ""
      && |r.value.0| > |url| && r.value.0[..|url| + 1] == url + "?"
      && ParseForm(r.value.0[|url| + 1..]) == Some(LeavesOf("", Dict(payload), |payload|))
  {
    FormRoundTrip(payload);
    var q := FormBody(payload).value;
    assert (url + "?" + q)[|url| + 1..] == q;
  }

  lemma BodyVerbIsNotGet(verb: string)
    requires BodyVerb(verb)
    ensures verb != "GET"
  {
    assert verb[0] != "GET"[0];
  }

  /** A form-encoded body verb leaves the URL alone and carries every leaf
      in the body. */
  lemma FormRoutesToBody(url: string, payload: seq<(string, Value)>, verb: string, jsonText: string)
    requires payload != [] && BodyVerb(verb) && WellFormed(Dict(payload))
    requires NarrowLeaves(LeavesOf("", Dict(payload), |payload|))
    ensures var r := Route(url, Some(payload), verb, false, jsonText);
      && r.Success? && r.value.0 == url
      && ParseForm(r.value.1) == Some(LeavesOf("", Dict(payload), |payload|))
  {
    BodyVerbIsNotGet(verb);
    FormRoundTrip(payload);
    var b := FormBody(payload).value;
    assert Route(url, Some(payload), verb, false, jsonText) == Success((url, b));
  }

  /** A verb written in lower case is not routed, so its parameters are
      dropped, although RequestRaw then sends it upper-cased. */
  lemma LowerCaseGetDropsParameters(url: string, payload: seq<(string, Value)>, jsonBody: bool, jsonText: string,
                                    apiRoot: string, token: string)
    ensures Route(url, Some(payload), "get", jsonBody, jsonText) == Success((url, ""))
    ensures RawRequest(apiRoot, token, url, "get", jsonBody, Some(""), None, None).verb == "GET"
  {
    var u := Upper("get");
    assert u[0] == 'G' && u[1] == 'E' && u[2] == 'T';
    assert u == "GET";
  }

  // ---------------------------------------------------------------------------
  // The login URL
  // ---------------------------------------------------------------------------

  const AuthEndpoint: string := "https://accounts.google.com/o/oauth2/auth"
  const AuthState: string := "purpletentacle"
  const DefaultRedirect: string := "urn:ietf:wg:oauth:2.0:oob"
  const GoogleApis: string := "https://www.googleapis.com"
  const GoogleAuth: string := GoogleApis + "/auth/"
  /** The eight scopes the login asks for. */
  const DefaultScopes: seq<string> := [
    "profile",
    GoogleAuth + "plus.me",
    GoogleAuth + "userinfo.profile",
    GoogleAuth + "youtube",
    GoogleAuth + "youtube.readonly",
    GoogleAuth + "youtube.upload",
    GoogleAuth + "youtubepartner",
    GoogleAuth + "youtubepartner-channel-audit"]

  /** The query pairs of the login URL, in order. */
  function LoginQuery(clientId: string, redirect: string, scopes: string): seq<(string, string)>
  {
    [("scope", scopes), ("state", AuthState), ("redirect_uri", redirect), ("response_type", "code"),
     ("client_id", clientId), ("access_type", "offline"), ("approval_prompt", "auto")]
  }

  /** GetLoginURL(clientId, redirect): the scopes joined with '+', then the
      authorization endpoint with the query of the authorization request. */
  method GetLoginURL(clientId: string, redirect: string) returns (url: string)
    ensures url == AuthEndpoint + "?" + QueryString(LoginQuery(clientId, redirect, Join(DefaultScopes, "+")))
  {
    var scopes := DefaultScopes[0];
    var i := 1;
    while i < |DefaultScopes|
      invariant 1 <= i <= |DefaultScopes|
      invariant scopes == Join(DefaultScopes[..i], "+")
    {
      ScopesStep(i);
      scopes := scopes + "+" + DefaultScopes[i];
      i := i + 1;
    }
    assert DefaultScopes[..i] == DefaultScopes;
    url := AuthEndpoint + "?" + QueryString(LoginQuery(clientId, redirect, scopes));
  }

  lemma ScopesStep(i: nat)
    requires 1 <= i < |DefaultScopes|
    ensures Join(DefaultScopes[..i + 1], "+") == Join(DefaultScopes[..i], "+") + "+" + DefaultScopes[i]
  {
    JoinAppend(DefaultScopes[..i], [DefaultScopes[i]], "+");
    assert DefaultScopes[..i + 1] == DefaultScopes[..i] + [DefaultScopes[i]];
  }

  lemma ScopeHeadsPlain()
    ensures PlainQueryText("profile")
  {
    PlainByIndex("profile");
  }

  lemma GoogleAuthPlain()
    ensures PlainQueryText(GoogleAuth)
  {
    PlainByIndex(GoogleApis);
    PlainByIndex("/auth/");
  }

  lemma ScopeTailsPlain()
    ensures PlainQueryText("plus.me") && PlainQueryText("userinfo.profile") && PlainQueryText("youtube")
  {
    PlainByIndex("plus.me");
    PlainByIndex("userinfo.profile");
    PlainByIndex("youtube");
  }

  lemma ScopeYouTubePlain()
    ensures PlainQueryText("youtube.readonly") && PlainQueryText("youtube.upload")
  {
    PlainByIndex("youtube.readonly");
    PlainByIndex("youtube.upload");
  }

  lemma ScopePartnerPlain()
    ensures PlainQueryText("youtubepartner") && PlainQueryText("youtubepartner-channel-audit")
  {
    PlainByIndex("youtubepartner");
    PlainByIndex("youtubepartner-channel-audit");
  }

  /** No scope holds '?', '#', '&' or '='. */
  lemma ScopesPlain()
    ensures forall k :: 0 <= k < |DefaultScopes| ==> PlainQueryText(DefaultScopes[k])
  {
    ScopeHeadsPlain();
    GoogleAuthPlain();
    ScopeTailsPlain();
    ScopeYouTubePlain();
    ScopePartnerPlain();
  }

  lemma LoginKeysPlain()
    ensures PlainQueryText("scope") && PlainQueryText("state") && PlainQueryText("redirect_uri")
    ensures PlainQueryText("response_type") && PlainQueryText("client_id")
  {
    PlainByIndex("scope");
    PlainByIndex("state");
    PlainByIndex("redirect_uri");
    PlainByIndex("response_type");
    PlainByIndex("client_id");
  }

  lemma LoginValuesPlain()
    ensures PlainQueryText("access_type") && PlainQueryText("approval_prompt")
  {
    PlainByIndex("access_type");
    PlainByIndex("approval_prompt");
  }

  lemma StateAndCodePlain()
    ensures PlainQueryText(AuthState) && PlainQueryText("code")
  {
    PlainByIndex(AuthState);
    PlainByIndex("code");
  }

  lemma OfflineAutoPlain()
    ensures PlainQueryText("offline") && PlainQueryText("auto")
  {
    PlainByIndex("offline");
    PlainByIndex("auto");
  }

  lemma LoginKeysDistinct(clientId: string, redirect: string, scopes: string)
    ensures DistinctKeys(LoginQuery(clientId, redirect, scopes))
  {
  }

  lemma EndpointPlain()
    ensures '?' !in AuthEndpoint
  {
  }

  /** Reading the login URL's query gives back the scopes, the state, the
      redirect URI, the response type, the client id, the access type and
      the approval prompt, in that order, when the client id and the
      redirect URI hold none of '?', '#', '&', '='. */
  lemma LoginUrlReadsBack(clientId: string, redirect: string)
    requires PlainQueryText(clientId) && PlainQueryText(redirect)
    ensures QueryParameters(AuthEndpoint + "?" + QueryString(LoginQuery(clientId, redirect, Join(DefaultScopes, "+"))))
         == Success(LoginQuery(clientId, redirect, Join(DefaultScopes, "+")))
  {
    var scopes := Join(DefaultScopes, "+");
    ScopesPlain();
    JoinExcludes(DefaultScopes, "+", '?');
    JoinExcludes(DefaultScopes, "+", '#');
    JoinExcludes(DefaultScopes, "+", '&');
    JoinExcludes(DefaultScopes, "+", '=');
    var kvs := LoginQuery(clientId, redirect, scopes);
    LoginKeysPlain();
    LoginValuesPlain();
    StateAndCodePlain();
    OfflineAutoPlain();
    assert PlainQuery(kvs);
    LoginKeysDistinct(clientId, redirect, scopes);
    EndpointPlain();
    QueryRoundTrip(AuthEndpoint, kvs);
  }

  // ---------------------------------------------------------------------------
  // The hook
  // ---------------------------------------------------------------------------

  const ApiRoot: string := "https://www.googleapis.com/youtube/v3"

  /** A YouTubeHook once authorized: its credentials and the refresh guard,
      with the server's answers and the token endpoint's grants still to
      come, the requests sent so far and the feedback handed to
      UploadCallback. */
  class Hook {
    var clientId: string
    var apiRoot: string
    var accessToken: string
    var unauthorizedAttempts: int
    var replies: seq<Option<Response>>
    var grants: seq<Option<string>>
    var sent: seq<Request>
    var callbacks: seq<Feedback>

    /** The state AuthorizeAsync and ReAuthorizeAsync leave: the client id,
        the YouTube API root, the access token and a clear counter. */
    constructor(clientId: string, accessToken: string, replies: seq<Option<Response>>, grants: seq<Option<string>>)
      ensures this.clientId == clientId && apiRoot == ApiRoot && this.accessToken == accessToken
      ensures unauthorizedAttempts == 0 && this.replies == replies && this.grants == grants
      ensures sent == [] && callbacks == []
    {
      this.clientId := clientId;
      apiRoot := ApiRoot;
      this.accessToken := accessToken;
      unauthorizedAttempts := 0;
      this.replies := replies;
      this.grants := grants;
      sent := [];
      callbacks := [];
    }

    /** One Core.HTTPFetch: the request goes out and the next answer comes
        back (None when the fetch throws). */
    method Send(req: Request) returns (reply: Option<Response>)
      modifies this`sent, this`replies
      ensures sent == old(sent) + [req]
      ensures reply == Answer(old(replies)) && replies == Drop1(old(replies))
    {
      sent := sent + [req];
      reply := Answer(replies);
      replies := Drop1(replies);
    }

    /** RefreshAuthorization: the next grant becomes the access token;
        false when the refresh throws. */
    method RefreshAuthorization() returns (ok: bool)
      modifies this`accessToken, this`grants
      ensures ok == Grant(old(grants)).Some? && grants == Drop1(old(grants))
      ensures accessToken == if ok then Grant(old(grants)).value else old(accessToken)
    {
      var grant := Grant(grants);
      grants := Drop1(grants);
      ok := grant.Some?;
      if ok {
        accessToken := grant.value;
      }
    }

    /** RequestRaw(url, verb, jsonBody, body, overrideApiRoot, host): the
        answer's text, with one refresh and one resend after a 40x. */
    method RequestRaw(url: string, verb: string, jsonBody: bool, body: Option<string>,
                      overrideApiRoot: Option<string>, host: Option<string>) returns (r: Result<string, HookError>)
      modifies this`sent, this`replies, this`grants, this`accessToken, this`unauthorizedAttempts
      ensures var req := RawRequest(old(apiRoot), old(accessToken), url, verb, jsonBody, body, overrideApiRoot, host);
        var e := RawExchange(req, old(unauthorizedAttempts), old(accessToken), old(replies), old(grants));
        && r == e.outcome && sent == old(sent) + e.sent && unauthorizedAttempts == e.counter
        && accessToken == e.token && replies == e.replies && grants == e.grants
    {
      var req := RawRequest(apiRoot, accessToken, url, verb, jsonBody, body, overrideApiRoot, host);
      var fetch := Send(req);
      if fetch.None? {
        return Failure(TransportFailed);
      }
      if Unauthorized(fetch.value.fields) {
        if unauthorizedAttempts == 0 {
          unauthorizedAttempts := unauthorizedAttempts + 1;
          var ok := RefreshAuthorization();
          if !ok {
            return Failure(RefreshFailed);
          }
          fetch := Send(req);
          if fetch.None? {
            return Failure(TransportFailed);
          }
          unauthorizedAttempts := 0;
        } else {
          return Failure(Repeated40x);
        }
      }
      return Success(fetch.value.text);
    }

    /** RequestAsync(url, parameters, verb, jsonBody, overrideApiRoot,
        host): route the parameters, then RequestRaw.  jsonText stands for
        Core.JsonEncode(parameters); the answer is returned as text. */
    method Request(url: string, parameters: Option<seq<(string, Value)>>, verb: string, jsonBody: bool,
                   jsonText: string, overrideApiRoot: Option<string>, host: Option<string>)
      returns (r: Result<string, HookError>)
      modifies this`sent, this`replies, this`grants, this`accessToken, this`unauthorizedAttempts
      ensures Route(url, parameters, verb, jsonBody, jsonText).Failure? ==>
        r == Failure(FormFailed) && sent == old(sent) && replies == old(replies)
        && grants == old(grants) && accessToken == old(accessToken) && unauthorizedAttempts == old(unauthorizedAttempts)
      ensures Route(url, parameters, verb, jsonBody, jsonText).Success? ==>
        var (url', body) := Route(url, parameters, verb, jsonBody, jsonText).value;
        var req := RawRequest(old(apiRoot), old(accessToken), url', verb, jsonBody, Some(body), overrideApiRoot, host);
        var e := RawExchange(req, old(unauthorizedAttempts), old(accessToken), old(replies), old(grants));
        && r == e.outcome && sent == old(sent) + e.sent && unauthorizedAttempts == e.counter
        && accessToken == e.token && replies == e.replies && grants == e.grants
    {
      var target, body := url, "";
      if parameters.Some? && |parameters.value| > 0 {
        if verb == "GET" {
          var q := KeyValueToString(parameters.value);
          if q.Failure? {
            return Failure(FormFailed);
          }
          target := url + "?" + q.value;
        } else if verb == "POST" || verb == "PATCH" || verb == "PUT" || verb == "DELETE" {
          if jsonBody {
            body := jsonText;
          } else {
            var b := KeyValueToString(parameters.value);
            if b.Failure? {
              return Failure(FormFailed);
            }
            body := b.value;
          }
        }
      }
      r := RequestRaw(target, verb, jsonBody, Some(body), overrideApiRoot, host);
    }

    /** GetUploadSessionUrl(FileInfo): the Location of the session, asked
        again once after a refresh. */
    method GetUploadSessionUrl(fileLength: int) returns (r: Result<Option<string>, HookError>)
      modifies this`sent, this`replies, this`grants, this`accessToken, this`unauthorizedAttempts
      ensures var e := SessionExchange(old(clientId), old(accessToken), fileLength, old(unauthorizedAttempts),
                                       old(replies), old(grants));
        && r == e.outcome && sent == old(sent) + e.sent && unauthorizedAttempts == e.counter
        && accessToken == e.token && replies == e.replies && grants == e.grants
        && clientId == old(clientId)
      decreases if unauthorizedAttempts == 0 then 1 else 0
    {
      var response := Send(SessionRequest(clientId, accessToken, fileLength));
      if response.None? {
        return Failure(TransportFailed);
      }
      if Unauthorized(response.value.fields) {
        if unauthorizedAttempts == 0 {
          unauthorizedAttempts := unauthorizedAttempts + 1;
          var ok := RefreshAuthorization();
          if !ok {
            return Failure(RefreshFailed);
          }
          ghost var before := sent;
          r := GetUploadSessionUrl(fileLength);
          assert sent == old(sent) + [SessionRequest(old(clientId), old(accessToken), fileLength)]
                 + (sent[|before|..]);
          if r.Success? {
            unauthorizedAttempts := 0;
          }
          return;
        } else {
          return Failure(SessionRefused);
        }
      }
      return Success(HeaderValue(response.value.fields, "Location"));
    }

    /** Verify(url, info): the probe and its reading. */
    method Verify(url: string, fileLength: int) returns (r: Result<Feedback, HookError>)
      modifies this`sent, this`replies
      ensures sent == old(sent) + [ProbeRequest(url, accessToken, fileLength)] && replies == Drop1(old(replies))
      ensures r == if Answer(old(replies)).None? then Failure(TransportFailed)
                   else Success(ProbeFeedback(Answer(old(replies)).value.fields))
    {
      var response := Send(ProbeRequest(url, accessToken, fileLength));
      if response.None? {
        return Failure(TransportFailed);
      }
      var v := ReadFeedback(response.value.fields);
      return Success(v);
    }

    /** Upload(url, totalLength, startByte, payload): one chunk, and the
        text of its answer. */
    method UploadChunk(url: string, totalLength: int, startByte: int, payload: seq<byte>)
      returns (r: Result<string, HookError>)
      modifies this`sent, this`replies
      ensures sent == old(sent) + [ChunkRequest(url, accessToken, totalLength, startByte, payload)]
      ensures replies == Drop1(old(replies))
      ensures r == if Answer(old(replies)).None? then Failure(TransportFailed)
                   else Success(Answer(old(replies)).value.text)
    {
      var response := Send(ChunkRequest(url, accessToken, totalLength, startByte, payload));
      if response.None? {
        return Failure(TransportFailed);
      }
      return Success(response.value.text);
    }

    /** The chunk half of one pass through the loop's body, from the
        probed cursor: Some(outcome) when the method returns (or, after a
        probe reporting the whole file, leaves the loop for the final
        parse), None when it goes round again. */
    method ChunkStep(c: Config, cursor: int, attempts: int, result: Option<string>)
      returns (exit: Option<Result<Option<string>, HookError>>, result': Option<string>)
      requires c.url.Some? && c.token == accessToken
      modifies this`sent, this`replies, this`unauthorizedAttempts
      ensures exit.Some? ==>
        Ended(ChunkHalf(c, cursor, attempts, result, old(replies)), exit.value, old(sent), callbacks,
              old(unauthorizedAttempts), sent, callbacks, replies, unauthorizedAttempts)
      ensures exit.None? ==>
          && cursor < |c.file| && Payload(c.file, cursor, Some(c.chunkSize)).Success?
          && |old(replies)| >= 1 && old(replies)[0].Some? && AllWhiteSpace(old(replies)[0].value.text) && !c.step
          && replies == old(replies)[1..] && unauthorizedAttempts == 0
          && result' == Some(old(replies)[0].value.text) && sent == old(sent) + [ChunkOf(c, cursor)]
    {
      result' := result;
      if cursor >= |c.file| {
        return Some(FinalId(c, result)), result';
      }
      var payload := GetPayload(c.file, cursor, Some(c.chunkSize));
      if payload.Failure? {
        return Some(Caught(attempts, c.maxAttempts, PayloadFailed)), result';
      }
      var answer := UploadChunk(c.url.value, |c.file|, cursor, payload.value);
      if answer.Failure? {
        return Some(Caught(attempts, c.maxAttempts, TransportFailed)), result';
      }
      result' := Some(answer.value);
      var blank := IsNullOrWhiteSpace(result');
      if !blank {
        var id := c.extractId(answer.value);
        if id.Some? {
          return Some(Success(id)), result';
        }
        return Some(Caught(attempts, c.maxAttempts, IdUnreadable)), result';
      }
      unauthorizedAttempts := 0;
      if c.step {
        return Some(Success(Some(""))), result';
      }
      exit := None;
    }

    /** The probe half of one pass through the loop's body: Some(outcome)
        when the probe throws, None when the probed cursor, the attempt
        count and the callback are in place. */
    method ProbeStep(c: Config, cursor: int, attempts: int, result: Option<string>)
      returns (exit: Option<Result<Option<string>, HookError>>, cursor': int, attempts': int)
      requires c.token == accessToken
      modifies this`sent, this`replies, this`callbacks
      ensures exit.Some? ==>
        && Ended(Loop(c, cursor, attempts, result, old(replies)), exit.value, old(sent), old(callbacks),
                 unauthorizedAttempts, sent, callbacks, replies, unauthorizedAttempts)
        && !Loop(c, cursor, attempts, result, old(replies)).reset
      ensures exit.None? ==>
          && c.url.Some? && Answer(old(replies)).Some? && replies == old(replies)[1..]
          && cursor' == ProbeFeedback(Answer(old(replies)).value.fields).lastByte
          && attempts' == (if cursor + 1024 < cursor' then 0 else attempts)
          && sent == old(sent) + [ProbeOf(c)]
          && callbacks == old(callbacks) + [ProbeFeedback(Answer(old(replies)).value.fields).(contentSize := |c.file|)]
    {
      cursor', attempts' := cursor, attempts;
      if c.url.None? {
        return Some(Caught(attempts, c.maxAttempts, NoUploadUrl)), cursor', attempts';
      }
      var feedback := Verify(c.url.value, |c.file|);
      if feedback.Failure? {
        return Some(Caught(attempts, c.maxAttempts, feedback.error)), cursor', attempts';
      }
      var fb := feedback.value;
      if cursor + 1024 < fb.lastByte {
        attempts' := 0;
      }
      cursor' := fb.lastByte;
      callbacks := callbacks + [fb.(contentSize := |c.file|)];
      exit := None;
    }

    /** One pass through the body of Upload's while loop: the probe half,
        then the chunk half. */
    method UploadRound(c: Config, cursor: int, attempts: int, result: Option<string>)
      returns (exit: Option<Result<Option<string>, HookError>>, cursor': int, attempts': int, result': Option<string>)
      requires c.token == accessToken
      modifies this`sent, this`replies, this`callbacks, this`unauthorizedAttempts
      ensures exit.Some? ==>
        Ended(Loop(c, cursor, attempts, result, old(replies)), exit.value, old(sent), old(callbacks),
              old(unauthorizedAttempts), sent, callbacks, replies, unauthorizedAttempts)
      ensures exit.None? ==>
          && Continues(c, old(replies)) && replies == old(replies)[2..] && unauthorizedAttempts == 0
          && cursor' == ProbeFeedback(old(replies)[0].value.fields).lastByte
          && attempts' == (if cursor + 1024 < cursor' then 0 else attempts)
          && result' == Some(old(replies)[1].value.text)
          && sent == old(sent) + [ProbeOf(c), ChunkOf(c, cursor')]
          && callbacks == old(callbacks) + [ProbeFeedback(old(replies)[0].value.fields).(contentSize := |c.file|)]
    {
      ghost var replies0, sent0, callbacks0, unauthorizedAttempts0 := replies, sent, callbacks, unauthorizedAttempts;
      result' := result;
      exit, cursor', attempts' := ProbeStep(c, cursor, attempts, result);
      if exit.Some? {
        return;
      }
      ghost var sent1, callbacks1 := sent, callbacks;
      exit, result' := ChunkStep(c, cursor', attempts', result);
      if exit.Some? {
        ChunkExitEnds(c, cursor, attempts, result, replies0, sent0, callbacks0, unauthorizedAttempts0,
                      exit.value, sent, callbacks, replies, unauthorizedAttempts);
        return;
      }
      assert replies0[1..][1..] == replies0[2..];
    }

    /** The while loop of Upload(path, url, chunkSize, maxAttempts,
        startByte, step) once the file is read and the URL known. */
    method UploadLoop(file: seq<byte>, url: Option<string>, chunkSize: int, maxAttempts: int, startByte: int,
                      step: bool, extractId: string -> Option<string>) returns (r: Result<Option<string>, HookError>)
      modifies this`sent, this`replies, this`callbacks, this`unauthorizedAttempts
      ensures var run := Loop(Config(file, url, accessToken, chunkSize, maxAttempts, step, extractId),
                              startByte, 0, None, old(replies));
        && r == run.outcome && sent == old(sent) + run.sent && callbacks == old(callbacks) + run.callbacks
        && replies == run.rest && unauthorizedAttempts == (if run.reset then 0 else old(unauthorizedAttempts))
    {
      var c := Config(file, url, accessToken, chunkSize, maxAttempts, step, extractId);
      var cursor, attempts, result := startByte, 0, None;
      ghost var whole := Loop(c, cursor, attempts, result, replies);
      ghost var cur := whole;
      ghost var reset := false;
      while true
        invariant accessToken == c.token
        invariant cur == Loop(c, cursor, attempts, result, replies)
        invariant whole.outcome == cur.outcome && whole.rest == cur.rest
        invariant old(sent) + whole.sent == sent + cur.sent
        invariant old(callbacks) + whole.callbacks == callbacks + cur.callbacks
        invariant whole.reset == (reset || cur.reset)
        invariant unauthorizedAttempts == if reset then 0 else old(unauthorizedAttempts)
        decreases |replies|
      {
        ghost var replies0, sent0, callbacks0 := replies, sent, callbacks;
        var exit, cursor', attempts', result' := UploadRound(c, cursor, attempts, result);
        if exit.Some? {
          return exit.value;
        }
        RoundJoins(c, cursor, attempts, result, replies0, sent0, callbacks0);
        cursor, attempts, result := cursor', attempts', result';
        cur := Loop(c, cursor, attempts, result, replies);
        reset := true;
      }
    }

    /** Upload(path, url, chunkSize, maxAttempts, startByte, step): a missing
        file throws; without a URL a session is opened first (its exceptions
        escape, and a null Location reaches the loop as a null URL); then
        the loop runs with the token in force. */
    method Upload(file: Option<seq<byte>>, url: Option<string>, chunkSize: int, maxAttempts: int, startByte: int,
                  step: bool, extractId: string -> Option<string>) returns (r: Result<Option<string>, HookError>)
      modifies this`sent, this`replies, this`grants, this`accessToken, this`unauthorizedAttempts, this`callbacks
      ensures file.None? ==>
        r == Failure(FileNotFound) && sent == old(sent) && replies == old(replies) && callbacks == old(callbacks)
      ensures file.Some? && url.Some? ==>
        var run := Loop(Config(file.value, url, old(accessToken), chunkSize, maxAttempts, step, extractId),
                        startByte, 0, None, old(replies));
        && r == run.outcome && sent == old(sent) + run.sent && callbacks == old(callbacks) + run.callbacks
        && replies == run.rest && unauthorizedAttempts == (if run.reset then 0 else old(unauthorizedAttempts))
      ensures file.Some? && url.None? ==>
        var e := SessionExchange(old(clientId), old(accessToken), |file.value|, old(unauthorizedAttempts),
                                 old(replies), old(grants));
        && (e.outcome.Failure? ==>
              r == Failure(e.outcome.error) && sent == old(sent) + e.sent && callbacks == old(callbacks))
        && (e.outcome.Success? ==>
              var run := Loop(Config(file.value, e.outcome.value, e.token, chunkSize, maxAttempts, step, extractId),
                              startByte, 0, None, e.replies);
              && r == run.outcome && sent == old(sent) + e.sent + run.sent
              && callbacks == old(callbacks) + run.callbacks && replies == run.rest
              && unauthorizedAttempts == (if run.reset then 0 else e.counter))
    {
      if file.None? {
        return Failure(FileNotFound);
      }
      var target := url;
      if target.None? {
        var session := GetUploadSessionUrl(|file.value|);
        if session.Failure? {
          return Failure(session.error);
        }
        target := session.value;
      }
      r := UploadLoop(file.value, target, chunkSize, maxAttempts, startByte, step, extractId);
    }
  }
}
