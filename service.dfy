/**
 * The gRPC handler `StreamService.Upload`: the ingest coordinator that reads
 * the client's frames, registers the file details, starts the storage writer
 * and relays every later frame's payload to it.
 *
 * The transport is the sequence of results its `Recv` calls return; when the
 * sequence runs out, `Recv` blocks for ever. The non-blocking poll of the
 * writer's control channel (the `select` with a `default` case) is an input
 * too: `polls[j]` is what that poll finds before the receive of loop round
 * `j`. The handler's side effects on its collaborators are recorded, in
 * order, as `Effect`s.
 */
module StreamService {
  import opened Base
  import opened Errors
  import opened StreamUsecase

  /** `pb.FileMetaData`. */
  datatype FileMetaData = FileMetaData(name: string, contentType: string)

  /** The `file` one-of of `pb.UploadRequest`: the file's details or a data chunk. */
  datatype UploadFile = Info(info: FileMetaData) | Data(data: Bytes)

  /** `pb.UploadRequest`; `file` is `None` when the one-of is unset. */
  datatype UploadRequest = UploadRequest(file: Option<UploadFile>)
  {
    /** The generated getter: the details if this is an info frame, nil otherwise. */
    function GetInfo(): (r: Option<FileMetaData>)
      ensures r.Some? <==> file.Some? && file.value.Info?
    {
      if file.Some? && file.value.Info? then Some(file.value.info) else None
    }

    /** The generated getter: the chunk if this is a data frame, an empty slice otherwise. */
    function GetData(): (r: Bytes)
      ensures file.Some? && file.value.Data? ==> r == file.value.data
      ensures !(file.Some? && file.value.Data?) ==> r == []
    {
      if file.Some? && file.value.Data? then file.value.data else []
    }
  }

  /** What one `stream.Recv()` returns: a request, or an error (`io.EOF` at the end of the stream). */
  datatype RecvResult = Received(req: UploadRequest) | RecvFailed(err: Error)

  /** A side effect of the handler on its collaborators, in the order it happens. */
  datatype Effect =
    | RegisterDetails(details: FileDetailsRequest) // `s.usecase.UploadFileDetails(ctx, details)`
    | StartWriter(fileId: string)                  // `go s.usecase.UploadFileAsStream(ctx, fileId, ...)`
    | SendData(data: Bytes)                        // `dataChan <- data`
    | SendEof                                      // `errChan <- io.EOF`
    | SendAndClose(id: string)                     // `stream.SendAndClose(&pb.UploadResponse{Id: id})`
    | CancelContext                                // the deferred `cancel()`

  /** The gRPC status codes the handler uses. */
  datatype Code = InvalidArgument | Internal

  /**
   * How `Upload` ends: it replies with the id (and returns whatever
   * `SendAndClose` returned), it returns a status error, or it never returns
   * because a `Recv` blocks.
   */
  datatype UploadResult =
    | Replied(id: string, closeErr: Option<Error>)
    | StatusError(code: Code, message: string)
    | Blocked

  datatype UploadRun = UploadRun(effects: seq<Effect>, result: UploadResult)

  const RecvDetailErrPrefix: string := "failed to receive file detail from stream: "
  const MissingInfoMessage: string := "provide file info on stream initially"
  const StoreErrPrefix: string := "failed to store data: "
  const RecvFileErrPrefix: string := "failed to get stream file from client: "

  /** What the poll before the receive of round `j` finds; past the end of `polls`, nothing. */
  function PollResult(polls: seq<Option<Error>>, j: nat): Option<Error>
  {
    if j < |polls| then polls[j] else None
  }

  /**
   * Round `j` of the loop goes on to the next round: the poll finds nothing,
   * and the receive (of `recvs[j + 1]`) returns a request.
   */
  predicate Relays(recvs: seq<RecvResult>, polls: seq<Option<Error>>, j: nat)
  {
    PollResult(polls, j).None? && j + 1 < |recvs| && recvs[j + 1].Received?
  }

  /** The round in which the loop returns, or blocks, counting from round `from`. */
  function LastRound(recvs: seq<RecvResult>, polls: seq<Option<Error>>, from: nat): (k: nat)
    requires from < |recvs|
    ensures from <= k < |recvs|
    ensures forall j :: from <= j < k ==> Relays(recvs, polls, j)
    ensures !Relays(recvs, polls, k)
    decreases |recvs| - from
  {
    if !Relays(recvs, polls, from) then from
    else LastRound(recvs, polls, from + 1)
  }

  /** The payload a receive result carries on to the writer. */
  function DataOf(r: RecvResult): Bytes
  {
    if r.Received? then r.req.GetData() else []
  }

  /** One send on the data channel per frame, in order. */
  function Relayed(frames: seq<RecvResult>): (sends: seq<Effect>)
    ensures |sends| == |frames|
  {
    seq(|frames|, i requires 0 <= i < |frames| => SendData(DataOf(frames[i])))
  }

  /**
   * How round `k`, the last, ends: a pending writer error, a receive that
   * never returns, the end of the stream, or a receive error.
   */
  function LoopExit(recvs: seq<RecvResult>, polls: seq<Option<Error>>, fileId: string,
                    closeErr: Option<Error>, k: nat): UploadRun
    requires k < |recvs|
    requires !Relays(recvs, polls, k)
  {
    var pending := PollResult(polls, k);
    if pending.Some? then
      UploadRun([CancelContext], StatusError(Internal, StoreErrPrefix + Message(pending.value)))
    else if k + 1 == |recvs| then
      UploadRun([], Blocked)
    else if recvs[k + 1].err == Eof then
      UploadRun([SendEof, SendAndClose(fileId), CancelContext], Replied(fileId, closeErr))
    else
      UploadRun([CancelContext], StatusError(InvalidArgument, RecvFileErrPrefix + Message(recvs[k + 1].err)))
  }

  /**
   * The handler once the details are saved: the writer starts, every frame
   * received before the last round is relayed, and `LoopExit` gives the rest.
   */
  function RelayingRun(recvs: seq<RecvResult>, polls: seq<Option<Error>>, details: FileDetailsRequest,
                       fileId: string, closeErr: Option<Error>): UploadRun
    requires |recvs| >= 1
  {
    var k := LastRound(recvs, polls, 0);
    var exit := LoopExit(recvs, polls, fileId, closeErr, k);
    UploadRun([RegisterDetails(details), StartWriter(fileId)] + Relayed(recvs[1..k + 1]) + exit.effects,
              exit.result)
  }

  /** The file details the handler builds from a frame's info. */
  function DetailsOf(info: FileMetaData): FileDetailsRequest
  {
    FileDetailsRequest(info.name, info.contentType)
  }

  /**
   * What `Upload` does. `register` is the use case's `UploadFileDetails`
   * (only its id and error are used), `closeErr` what `SendAndClose` returns.
   */
  function UploadSpec(recvs: seq<RecvResult>, register: FileDetailsRequest -> Registration,
                      polls: seq<Option<Error>>, closeErr: Option<Error>): UploadRun
  {
    if |recvs| == 0 then UploadRun([], Blocked)
    else if recvs[0].RecvFailed? then
      UploadRun([], StatusError(InvalidArgument, RecvDetailErrPrefix + Message(recvs[0].err)))
    else if recvs[0].req.GetInfo().None? then
      UploadRun([], StatusError(InvalidArgument, MissingInfoMessage))
    else
      var details := DetailsOf(recvs[0].req.GetInfo().value);
      var reg := register(details);
      if reg.err.Some? then
        UploadRun([RegisterDetails(details), CancelContext], StatusError(Internal, Message(reg.err.value)))
      else
        RelayingRun(recvs, polls, details, reg.fileId, closeErr)
  }

  /**
   * `StreamService.Upload`: read the details frame, register the details,
   * start the writer, then poll the writer and relay frames until the stream
   * ends or fails. The deferred `cancel()` runs on every return after the
   * context is created.
   */
  method Upload(recvs: seq<RecvResult>, register: FileDetailsRequest -> Registration,
                polls: seq<Option<Error>>, closeErr: Option<Error>) returns (run: UploadRun)
    ensures run == UploadSpec(recvs, register, polls, closeErr)
  {
    if |recvs| == 0 {
      return UploadRun([], Blocked);
    }
    var streamFile := recvs[0];
    if streamFile.RecvFailed? {
      return UploadRun([], StatusError(InvalidArgument, RecvDetailErrPrefix + Message(streamFile.err)));
    }
    var fileInfo := streamFile.req.GetInfo();
    if fileInfo.None? {
      return UploadRun([], StatusError(InvalidArgument, MissingInfoMessage));
    }
    var fileDetails := DetailsOf(fileInfo.value);
    // the context is created here; cancel() is deferred from now on
    var reg := register(fileDetails);
    var effects := [RegisterDetails(fileDetails)];
    if reg.err.Some? {
      return UploadRun(effects + [CancelContext], StatusError(Internal, Message(reg.err.value)));
    }
    var fileId := reg.fileId;
    effects := effects + [StartWriter(fileId)];
    var j := 0;
    ghost var last := LastRound(recvs, polls, 0);
    while true
      invariant j <= last
      invariant effects == [RegisterDetails(fileDetails), StartWriter(fileId)] + Relayed(recvs[1..j + 1])
      decreases |recvs| - j
    {
      assert j < last <==> Relays(recvs, polls, j);
      var pending := PollResult(polls, j);
      if pending.Some? {
        return UploadRun(effects + [CancelContext], StatusError(Internal, StoreErrPrefix + Message(pending.value)));
      }
      if j + 1 == |recvs| {
        // Recv never returns
        return UploadRun(effects, Blocked);
      }
      streamFile := recvs[j + 1];
      if streamFile.RecvFailed? {
        if streamFile.err == Eof {
          effects := effects + [SendEof, SendAndClose(fileId), CancelContext];
          return UploadRun(effects, Replied(fileId, closeErr));
        }
        return UploadRun(effects + [CancelContext],
                         StatusError(InvalidArgument, RecvFileErrPrefix + Message(streamFile.err)));
      }
      assert Relayed(recvs[1..j + 2]) == Relayed(recvs[1..j + 1]) + [SendData(streamFile.req.GetData())];
      effects := effects + [SendData(streamFile.req.GetData())];
      j := j + 1;
    }
  }
}
