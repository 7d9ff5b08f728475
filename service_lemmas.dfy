/**
 * What the ingest coordinator promises: the details frame comes first and is
 * registered once, the writer is started once and only after the details are
 * saved, frames are relayed in order, the id is returned only at the end of
 * the stream, each failure has its status code, and the context is cancelled
 * on every return.
 */
module StreamServiceProperties {
  import opened Base
  import opened Errors
  import opened StreamUsecase
  import opened StreamService

  // ------------------------------------------------------------- helpers

  /** The payloads sent on the data channel, in order. */
  function SentData(effects: seq<Effect>): seq<Bytes>
  {
    if effects == [] then []
    else
      var last := effects[|effects| - 1];
      SentData(effects[..|effects| - 1]) + (if last.SendData? then [last.data] else [])
  }

  /** The context exists: the first frame was received and carried the file info. */
  predicate ContextCreated(recvs: seq<RecvResult>)
  {
    |recvs| >= 1 && recvs[0].Received? && recvs[0].req.GetInfo().Some?
  }

  /** The details of the first frame, once it is known to carry them. */
  function FirstDetails(recvs: seq<RecvResult>): FileDetailsRequest
    requires ContextCreated(recvs)
  {
    DetailsOf(recvs[0].req.GetInfo().value)
  }

  /** The details were saved, so the writer was started. */
  predicate WriterStarted(recvs: seq<RecvResult>, register: FileDetailsRequest -> Registration)
  {
    ContextCreated(recvs) && register(FirstDetails(recvs)).err.None?
  }

  lemma {:induction false} SentDataAppend(a: seq<Effect>, b: seq<Effect>)
    ensures SentData(a + b) == SentData(a) + SentData(b)
  {
    if b == [] {
      assert a + b == a;
    } else {
      assert (a + b)[..|a + b| - 1] == a + b[..|b| - 1];
      SentDataAppend(a, b[..|b| - 1]);
    }
  }

  /** Effects other than data sends contribute no payload. */
  lemma {:induction false} NoSends(effects: seq<Effect>)
    requires forall i :: 0 <= i < |effects| ==> !effects[i].SendData?
    ensures SentData(effects) == []
  {
    if effects != [] {
      NoSends(effects[..|effects| - 1]);
    }
  }

  /** Relaying frames sends exactly their payloads, in order. */
  lemma {:induction false} RelayedSends(frames: seq<RecvResult>)
    ensures |SentData(Relayed(frames))| == |frames|
    ensures forall i :: 0 <= i < |frames| ==> SentData(Relayed(frames))[i] == DataOf(frames[i])
  {
    if frames != [] {
      var init := frames[..|frames| - 1];
      RelayedSends(init);
      assert Relayed(frames)[..|frames| - 1] == Relayed(init);
    }
  }

  /** The effects of the exit round send no payload. */
  lemma LoopExitSendsNothing(recvs: seq<RecvResult>, polls: seq<Option<Error>>, fileId: string,
                             closeErr: Option<Error>, k: nat)
    requires k < |recvs|
    requires !Relays(recvs, polls, k)
    ensures SentData(LoopExit(recvs, polls, fileId, closeErr, k).effects) == []
  {
    var exit := LoopExit(recvs, polls, fileId, closeErr, k);
    NoSends(exit.effects);
  }

  /** Once the writer has started, one payload is sent per relayed frame. */
  lemma RelayingRunSent(recvs: seq<RecvResult>, polls: seq<Option<Error>>, details: FileDetailsRequest,
                        fileId: string, closeErr: Option<Error>)
    requires |recvs| >= 1
    ensures var k := LastRound(recvs, polls, 0);
      var sent := SentData(RelayingRun(recvs, polls, details, fileId, closeErr).effects);
      && sent == SentData(Relayed(recvs[1..k + 1]))
      && |sent| == k
  {
    var k := LastRound(recvs, polls, 0);
    var prefix := [RegisterDetails(details), StartWriter(fileId)];
    var frames := recvs[1..k + 1];
    var exit := LoopExit(recvs, polls, fileId, closeErr, k);
    var effects := RelayingRun(recvs, polls, details, fileId, closeErr).effects;
    assert effects == (prefix + Relayed(frames)) + exit.effects;
    assert SentData(prefix + Relayed(frames)) == SentData(Relayed(frames)) by {
      NoSends(prefix);
      SentDataAppend(prefix, Relayed(frames));
    }
    SentDataAppend(prefix + Relayed(frames), exit.effects);
    LoopExitSendsNothing(recvs, polls, fileId, closeErr, k);
    RelayedSends(frames);
  }

  /** Once the writer has started, the payloads sent are those of the frames received in the rounds before the last. */
  lemma RelayingRunFrames(recvs: seq<RecvResult>, polls: seq<Option<Error>>, details: FileDetailsRequest,
                          fileId: string, closeErr: Option<Error>)
    requires |recvs| >= 1
    ensures var k := LastRound(recvs, polls, 0);
      var sent := SentData(RelayingRun(recvs, polls, details, fileId, closeErr).effects);
      && |sent| == k
      && forall i :: 0 <= i < k ==> recvs[i + 1].Received? && sent[i] == recvs[i + 1].req.GetData()
  {
    var k := LastRound(recvs, polls, 0);
    var frames := recvs[1..k + 1];
    var sent := SentData(RelayingRun(recvs, polls, details, fileId, closeErr).effects);
    RelayingRunSent(recvs, polls, details, fileId, closeErr);
    RelayedSends(frames);
    forall i | 0 <= i < k ensures recvs[i + 1].Received? && sent[i] == recvs[i + 1].req.GetData() {
      assert Relays(recvs, polls, i);
      assert frames[i] == recvs[i + 1];
    }
  }

  /**
   * Once the writer has started, the run ends with the last round's effects
   * and result; before them nothing signals the end or cancels.
   */
  lemma RelayingRunExit(recvs: seq<RecvResult>, polls: seq<Option<Error>>, details: FileDetailsRequest,
                        fileId: string, closeErr: Option<Error>)
    requires |recvs| >= 1
    ensures var exit := LoopExit(recvs, polls, fileId, closeErr, LastRound(recvs, polls, 0));
      var run := RelayingRun(recvs, polls, details, fileId, closeErr);
      var m := |run.effects| - |exit.effects|;
      && m >= 2
      && run.effects[m..] == exit.effects
      && run.result == exit.result
      && forall i :: 0 <= i < m ==> run.effects[i] != CancelContext && run.effects[i] != SendEof && !run.effects[i].SendAndClose?
  {
    var k := LastRound(recvs, polls, 0);
    var exit := LoopExit(recvs, polls, fileId, closeErr, k);
    var effects := RelayingRun(recvs, polls, details, fileId, closeErr).effects;
    var sends := Relayed(recvs[1..k + 1]);
    assert effects == [RegisterDetails(details), StartWriter(fileId)] + sends + exit.effects;
    forall i | 0 <= i < 2 + k
      ensures effects[i] != CancelContext && effects[i] != SendEof && !effects[i].SendAndClose?
    {
      if i >= 2 {
        assert effects[i] == sends[i - 2];
      }
    }
  }

  /** After the registration and the start, the run neither registers nor starts again. */
  lemma RelayingRunStartsOnce(recvs: seq<RecvResult>, polls: seq<Option<Error>>, details: FileDetailsRequest,
                              fileId: string, closeErr: Option<Error>)
    requires |recvs| >= 1
    ensures var effects := RelayingRun(recvs, polls, details, fileId, closeErr).effects;
      && |effects| >= 2
      && effects[0] == RegisterDetails(details)
      && effects[1] == StartWriter(fileId)
      && forall i :: 2 <= i < |effects| ==> !effects[i].RegisterDetails? && !effects[i].StartWriter?
  {
    var k := LastRound(recvs, polls, 0);
    var exit := LoopExit(recvs, polls, fileId, closeErr, k);
    var effects := RelayingRun(recvs, polls, details, fileId, closeErr).effects;
    var sends := Relayed(recvs[1..k + 1]);
    assert effects == [RegisterDetails(details), StartWriter(fileId)] + sends + exit.effects;
    forall i | 2 <= i < |effects| ensures !effects[i].RegisterDetails? && !effects[i].StartWriter? {
      if i < 2 + k {
        assert effects[i] == sends[i - 2];
      } else {
        assert effects[i] == exit.effects[i - 2 - k];
      }
    }
  }

  // ------------------------------------------------- before the details

  /** A failed first receive is an invalid argument, and nothing else happens. */
  lemma FirstRecvFails(recvs: seq<RecvResult>, register: FileDetailsRequest -> Registration,
                       polls: seq<Option<Error>>, closeErr: Option<Error>)
    requires |recvs| >= 1 && recvs[0].RecvFailed?
    ensures var run := UploadSpec(recvs, register, polls, closeErr);
      && run.effects == []
      && run.result == StatusError(InvalidArgument, RecvDetailErrPrefix + Message(recvs[0].err))
  {
  }

  /**
   * A first frame without file info (an empty request or a data frame) is
   * an invalid argument: no details are registered, no writer is started.
   */
  lemma InfoRequiredFirst(recvs: seq<RecvResult>, register: FileDetailsRequest -> Registration,
                          polls: seq<Option<Error>>, closeErr: Option<Error>)
    requires |recvs| >= 1 && recvs[0].Received?
    requires recvs[0].req.file.None? || recvs[0].req.file.value.Data?
    ensures var run := UploadSpec(recvs, register, polls, closeErr);
      && run.effects == []
      && run.result == StatusError(InvalidArgument, MissingInfoMessage)
  {
  }

  // ------------------------------------------------- details and writer

  /**
   * `UploadFileDetails` is called exactly when the first frame carries the
   * info, then exactly once, first, with that info's name and content type.
   */
  lemma DetailsRegisteredOnce(recvs: seq<RecvResult>, register: FileDetailsRequest -> Registration,
                              polls: seq<Option<Error>>, closeErr: Option<Error>)
    ensures var run := UploadSpec(recvs, register, polls, closeErr);
      (exists i :: 0 <= i < |run.effects| && run.effects[i].RegisterDetails?) <==> ContextCreated(recvs)
    ensures var run := UploadSpec(recvs, register, polls, closeErr);
      ContextCreated(recvs) ==>
        && run.effects[0] == RegisterDetails(FileDetailsRequest(recvs[0].req.GetInfo().value.name,
                                                                recvs[0].req.GetInfo().value.contentType))
        && (forall i :: 1 <= i < |run.effects| ==> !run.effects[i].RegisterDetails?)
  {
    var run := UploadSpec(recvs, register, polls, closeErr);
    if WriterStarted(recvs, register) {
      var details := FirstDetails(recvs);
      RelayingRunStartsOnce(recvs, polls, details, register(details).fileId, closeErr);
    }
    if ContextCreated(recvs) {
      assert run.effects[0].RegisterDetails?;
    }
  }

  /** A failed registration is an internal error with the registrar's message; the writer never starts. */
  lemma DetailsFailure(recvs: seq<RecvResult>, register: FileDetailsRequest -> Registration,
                       polls: seq<Option<Error>>, closeErr: Option<Error>)
    requires ContextCreated(recvs) && register(FirstDetails(recvs)).err.Some?
    ensures var run := UploadSpec(recvs, register, polls, closeErr);
      && run.effects == [RegisterDetails(FirstDetails(recvs)), CancelContext]
      && run.result == StatusError(Internal, Message(register(FirstDetails(recvs)).err.value))
  {
  }

  /**
   * The writer is started exactly when the details were saved, then exactly
   * once, right after the registration, with the id the registrar returned.
   */
  lemma WriterStartedOnce(recvs: seq<RecvResult>, register: FileDetailsRequest -> Registration,
                          polls: seq<Option<Error>>, closeErr: Option<Error>)
    ensures var run := UploadSpec(recvs, register, polls, closeErr);
      (exists i :: 0 <= i < |run.effects| && run.effects[i].StartWriter?) <==> WriterStarted(recvs, register)
    ensures var run := UploadSpec(recvs, register, polls, closeErr);
      WriterStarted(recvs, register) ==>
        && run.effects[0].RegisterDetails?
        && run.effects[1] == StartWriter(register(FirstDetails(recvs)).fileId)
        && (forall i :: 0 <= i < |run.effects| && i != 1 ==> !run.effects[i].StartWriter?)
  {
    var run := UploadSpec(recvs, register, polls, closeErr);
    if WriterStarted(recvs, register) {
      var details := FirstDetails(recvs);
      RelayingRunStartsOnce(recvs, polls, details, register(details).fileId, closeErr);
      assert run.effects[1].StartWriter?;
    }
  }

  // ---------------------------------------------------------- relaying

  /**
   * The payloads sent to the writer are those of the frames received after
   * the first, one per frame, in receipt order; a frame without data sends
   * an empty payload. The registration and the start come before any send.
   */
  lemma RelaysInOrder(recvs: seq<RecvResult>, register: FileDetailsRequest -> Registration,
                      polls: seq<Option<Error>>, closeErr: Option<Error>)
    requires WriterStarted(recvs, register)
    ensures var run := UploadSpec(recvs, register, polls, closeErr);
      var n := |SentData(run.effects)|;
      && n + 1 <= |recvs|
      && (forall i :: 0 <= i < n ==> recvs[i + 1].Received? && SentData(run.effects)[i] == recvs[i + 1].req.GetData())
      && (forall i :: 0 <= i < |run.effects| && run.effects[i].SendData? ==> 2 <= i)
  {
    var run := UploadSpec(recvs, register, polls, closeErr);
    var details := FirstDetails(recvs);
    var fileId := register(details).fileId;
    assert run == RelayingRun(recvs, polls, details, fileId, closeErr);
    RelayingRunFrames(recvs, polls, details, fileId, closeErr);
    RelayingRunStartsOnce(recvs, polls, details, fileId, closeErr);
  }

  /** Nothing reaches the writer's channels unless the writer was started. */
  lemma NoRelayWithoutWriter(recvs: seq<RecvResult>, register: FileDetailsRequest -> Registration,
                             polls: seq<Option<Error>>, closeErr: Option<Error>)
    requires !WriterStarted(recvs, register)
    ensures var run := UploadSpec(recvs, register, polls, closeErr);
      forall i :: 0 <= i < |run.effects| ==> !run.effects[i].SendData? && run.effects[i] != SendEof
  {
  }

  // ------------------------------------------------------------ endings

  /** The round in which the coordinator stops is the one after the frames it relayed. */
  lemma LastRoundIsSent(recvs: seq<RecvResult>, register: FileDetailsRequest -> Registration,
                        polls: seq<Option<Error>>, closeErr: Option<Error>)
    requires WriterStarted(recvs, register)
    ensures |SentData(UploadSpec(recvs, register, polls, closeErr).effects)| == LastRound(recvs, polls, 0)
  {
    var details := FirstDetails(recvs);
    RelayingRunSent(recvs, polls, details, register(details).fileId, closeErr);
  }

  /**
   * The id is returned only at the end of the stream: a reply happens
   * exactly when the writer was started, no writer error was pending and
   * the receive after the relayed frames returned `io.EOF`. It carries the
   * registrar's id, and the terminal signal is sent before it.
   */
  lemma ReplyOnlyOnEof(recvs: seq<RecvResult>, register: FileDetailsRequest -> Registration,
                       polls: seq<Option<Error>>, closeErr: Option<Error>)
    ensures var run := UploadSpec(recvs, register, polls, closeErr);
      var n := |SentData(run.effects)|;
      run.result.Replied? <==>
        && WriterStarted(recvs, register)
        && PollResult(polls, n).None? && n + 1 < |recvs| && recvs[n + 1] == RecvFailed(Eof)
    ensures var run := UploadSpec(recvs, register, polls, closeErr);
      run.result.Replied? ==>
        && WriterStarted(recvs, register)
        && run.result == Replied(register(FirstDetails(recvs)).fileId, closeErr)
        && |run.effects| >= 3
        && run.effects[|run.effects| - 3..] == [SendEof, SendAndClose(run.result.id), CancelContext]
  {
    var run := UploadSpec(recvs, register, polls, closeErr);
    if WriterStarted(recvs, register) {
      LastRoundIsSent(recvs, register, polls, closeErr);
      var details := FirstDetails(recvs);
      RelayingRunExit(recvs, polls, details, register(details).fileId, closeErr);
    } else {
      NoSends(run.effects);
    }
  }

  /**
   * The status codes after the details are saved: a writer error found by the
   * poll is an internal error carrying the writer's message; a receive error
   * other than `io.EOF` is an invalid argument carrying the transport's.
   */
  lemma ErrorMapping(recvs: seq<RecvResult>, register: FileDetailsRequest -> Registration,
                     polls: seq<Option<Error>>, closeErr: Option<Error>)
    requires WriterStarted(recvs, register)
    ensures var run := UploadSpec(recvs, register, polls, closeErr);
      var n := |SentData(run.effects)|;
      (run.result.StatusError? && run.result.code == Internal) <==> PollResult(polls, n).Some?
    ensures var run := UploadSpec(recvs, register, polls, closeErr);
      var n := |SentData(run.effects)|;
      PollResult(polls, n).Some? ==>
        run.result == StatusError(Internal, StoreErrPrefix + Message(PollResult(polls, n).value))
    ensures var run := UploadSpec(recvs, register, polls, closeErr);
      var n := |SentData(run.effects)|;
      (run.result.StatusError? && run.result.code == InvalidArgument) <==>
        (PollResult(polls, n).None? && n + 1 < |recvs| && recvs[n + 1].RecvFailed? && recvs[n + 1].err != Eof)
    ensures var run := UploadSpec(recvs, register, polls, closeErr);
      var n := |SentData(run.effects)|;
      run.result.StatusError? && run.result.code == InvalidArgument ==>
        run.result.message == RecvFileErrPrefix + Message(recvs[n + 1].err)
  {
    LastRoundIsSent(recvs, register, polls, closeErr);
  }

  /**
   * The deferred `cancel()`: once the context exists, every return cancels
   * it, exactly once and as the last effect; only a receive that never
   * returns leaves it uncancelled, and before the context exists there is
   * nothing to cancel.
   */
  lemma CancelOnEveryReturn(recvs: seq<RecvResult>, register: FileDetailsRequest -> Registration,
                            polls: seq<Option<Error>>, closeErr: Option<Error>)
    ensures var run := UploadSpec(recvs, register, polls, closeErr);
      (CancelContext in run.effects) <==> ContextCreated(recvs) && !run.result.Blocked?
    ensures var run := UploadSpec(recvs, register, polls, closeErr);
      CancelContext in run.effects ==>
        && run.effects[|run.effects| - 1] == CancelContext
        && (forall i :: 0 <= i < |run.effects| - 1 ==> run.effects[i] != CancelContext)
  {
    var run := UploadSpec(recvs, register, polls, closeErr);
    if WriterStarted(recvs, register) {
      var details := FirstDetails(recvs);
      var fileId := register(details).fileId;
      RelayingRunExit(recvs, polls, details, fileId, closeErr);
      var exit := LoopExit(recvs, polls, fileId, closeErr, LastRound(recvs, polls, 0));
      var m := |run.effects| - |exit.effects|;
      assert run.effects == run.effects[..m] + exit.effects;
      assert CancelContext !in run.effects[..m];
    }
  }

  /** A complete stream: the info frame, one data frame per chunk, then `io.EOF`. */
  function CompleteStream(info: FileMetaData, chunks: seq<Bytes>): (recvs: seq<RecvResult>)
    ensures |recvs| == |chunks| + 2
  {
    [Received(UploadRequest(Some(Info(info))))]
    + seq(|chunks|, i requires 0 <= i < |chunks| => Received(UploadRequest(Some(Data(chunks[i])))))
    + [RecvFailed(Eof)]
  }

  /** One data-channel send per chunk, in order. */
  function Sends(chunks: seq<Bytes>): (sends: seq<Effect>)
    ensures |sends| == |chunks|
  {
    seq(|chunks|, i requires 0 <= i < |chunks| => SendData(chunks[i]))
  }

  /** With no writer error pending, a complete stream relays every chunk and stops at `io.EOF`. */
  lemma CompleteStreamRounds(info: FileMetaData, chunks: seq<Bytes>, polls: seq<Option<Error>>)
    requires forall j :: 0 <= j <= |chunks| ==> PollResult(polls, j).None?
    ensures LastRound(CompleteStream(info, chunks), polls, 0) == |chunks|
    ensures Relayed(CompleteStream(info, chunks)[1..|chunks| + 1]) == Sends(chunks)
  {
    var recvs := CompleteStream(info, chunks);
    var n := |chunks|;
    forall j | 0 <= j < n ensures Relays(recvs, polls, j) {
      assert recvs[j + 1].req.file == Some(Data(chunks[j]));
    }
    assert !Relays(recvs, polls, n);
    LastRoundIsFirstStop(recvs, polls, n);
    var frames := recvs[1..n + 1];
    forall i | 0 <= i < n ensures Relayed(frames)[i] == Sends(chunks)[i] {
      assert frames[i] == recvs[i + 1];
    }
  }

  /** The first round that does not relay is the last round. */
  lemma LastRoundIsFirstStop(recvs: seq<RecvResult>, polls: seq<Option<Error>>, n: nat)
    requires n < |recvs|
    requires forall j :: 0 <= j < n ==> Relays(recvs, polls, j)
    requires !Relays(recvs, polls, n)
    ensures LastRound(recvs, polls, 0) == n
  {
    var k := LastRound(recvs, polls, 0);
  }

  /**
   * A complete stream with the details saved and no writer error pending:
   * the handler registers the info's details, starts the writer with the
   * registrar's id, relays every chunk in order, sends the terminal signal,
   * replies with that id and cancels the context.
   */
  lemma CompleteStreamReplies(info: FileMetaData, chunks: seq<Bytes>, register: FileDetailsRequest -> Registration,
                              polls: seq<Option<Error>>, closeErr: Option<Error>)
    requires register(DetailsOf(info)).err.None?
    requires forall j :: 0 <= j <= |chunks| ==> PollResult(polls, j).None?
    ensures var id := register(DetailsOf(info)).fileId;
      UploadSpec(CompleteStream(info, chunks), register, polls, closeErr)
      == UploadRun([RegisterDetails(DetailsOf(info)), StartWriter(id)] + Sends(chunks)
                   + [SendEof, SendAndClose(id), CancelContext],
                   Replied(id, closeErr))
  {
    var recvs := CompleteStream(info, chunks);
    assert recvs[0].req.GetInfo() == Some(info);
    CompleteStreamRounds(info, chunks, polls);
  }
}
