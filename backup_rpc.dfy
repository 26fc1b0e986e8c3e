/**
 * The backup replication wire protocol as seen by the master-side stub
 * (src/BackupClient.cc): frames, the requests the stub builds, the checks it
 * applies to every response, and what each operation makes of a response.
 * The byte layout and the numeric constants of the protocol header are not
 * part of this model: a frame is a typed header plus a typed body, and the
 * constants are the fields of a `Layout`.
 */
module BackupRpc {

  const U32_LIMIT: nat := 0x1_0000_0000

  type byte = x: int | 0 <= x < 0x100
  type u32 = x: int | 0 <= x < 0x1_0000_0000
  type u64 = x: int | 0 <= x < 0x1_0000_0000_0000_0000

  datatype Opcode =
    | HeartbeatReq | HeartbeatResp
    | WriteReq | WriteResp
    | CommitReq | CommitResp
    | FreeReq | FreeResp
    | GetSegmentListReq | GetSegmentListResp
    | GetSegmentMetadataReq | GetSegmentMetadataResp
    | RetrieveReq | RetrieveResp
    | ErrorResp

  /** One live-object descriptor returned for crash recovery; its contents are opaque here. */
  datatype ObjectMetadata = ObjectMetadata(raw: seq<byte>)

  datatype Body =
    | Empty
    | WriteBody(segNum: u64, off: u32, len: u32, data: seq<byte>)
    | SegmentBody(segNum: u64)
    | SegmentListBody(segIds: seq<u64>)
    | MetadataBody(entries: seq<ObjectMetadata>)
    | RetrieveBody(data: seq<byte>)
    | ErrorBody(message: string)

  /** One message: the header's opcode and declared total length, then the body. */
  datatype Frame = Frame(opcode: Opcode, len: nat, body: Body)

  /** A frame as the transport hands it over, with the number of bytes actually received. */
  datatype Delivery = Delivery(frame: Frame, received: nat)

  /** The protocol constants: MAX_RPC_LEN, BACKUP_RPC_WRITE_REQ_LEN_WODATA and the fixed request lengths. */
  datatype Layout = Layout(
    maxRpcLen: nat,
    writeReqLenWoData: u32,
    heartbeatReqLen: u32,
    commitReqLen: u32,
    freeReqLen: u32,
    getSegmentListReqLen: u32,
    getSegmentMetadataReqLen: u32,
    retrieveReqLen: u32)

  /** The operations a master issues against one backup. */
  datatype Request =
    | Heartbeat
    | Write(segNum: u64, offset: u32, data: seq<byte>)
    | Commit(segNum: u64)
    | Free(segNum: u64)
    | GetSegmentList
    | GetSegmentMetadata(segNum: u64)
    | Retrieve(segNum: u64)

  /** The ways an operation of the stub can fail. */
  datatype Failure =
    /** BackupRPCException, carrying its message. */
    | BackupRPCException(message: string)
    /** The assertion that the received length equals the declared length failed (the source aborts the process). */
    | LengthAssertionFailed(received: nat, declared: nat)
    /** The transport delivered nothing. */
    | ConnectionLost
    /** The response body does not have the shape the operation reads. */
    | MalformedResponse

  datatype Result<T> = Ok(value: T) | Err(failure: Failure)

  datatype Outcome = Pass | Fail(failure: Failure)

  datatype Option<T> = None | Some(value: T)

  const WRITE_TOO_LONG := "Write RPC would be too long"
  const BUFFER_TOO_SMALL := "Provided a segment id buffer that was too small"
  const ONE_HOST_ONLY := "Only one backup host currently supported"

  // ---------------------------------------------------------------------------
  // Requests

  /** A write's payload length must fit the header's 32-bit length field. */
  predicate WellFormed(req: Request) {
    req.Write? ==> |req.data| < U32_LIMIT
  }

  /** Total length of a write request frame carrying `len` payload bytes. */
  function WriteFrameLen(layout: Layout, len: nat): nat {
    layout.writeReqLenWoData + len
  }

  /** The frame the stub sends for `req`: a fixed opcode, a fixed header length (plus the payload for a write). */
  function Encode(layout: Layout, req: Request): Frame
    requires WellFormed(req)
  {
    match req
    case Heartbeat => Frame(HeartbeatReq, layout.heartbeatReqLen, Empty)
    case Write(seg, off, data) => Frame(WriteReq, WriteFrameLen(layout, |data|), WriteBody(seg, off, |data|, data))
    case Commit(seg) => Frame(CommitReq, layout.commitReqLen, SegmentBody(seg))
    case Free(seg) => Frame(FreeReq, layout.freeReqLen, SegmentBody(seg))
    case GetSegmentList => Frame(GetSegmentListReq, layout.getSegmentListReqLen, Empty)
    case GetSegmentMetadata(seg) => Frame(GetSegmentMetadataReq, layout.getSegmentMetadataReqLen, SegmentBody(seg))
    case Retrieve(seg) => Frame(RetrieveReq, layout.retrieveReqLen, SegmentBody(seg))
  }

  /**
   * Reads a request back from a frame, as the receiving backup would: the
   * opcode selects the operation, the declared length must be the one the
   * protocol fixes for that opcode, and the body must carry its arguments.
   */
  function Decode(layout: Layout, f: Frame): Option<Request> {
    match (f.opcode, f.body)
    case (HeartbeatReq, Empty) =>
      if f.len == layout.heartbeatReqLen then Some(Heartbeat) else None
    case (WriteReq, WriteBody(seg, off, len, data)) =>
      if len == |data| && f.len == WriteFrameLen(layout, len) then Some(Write(seg, off, data)) else None
    case (CommitReq, SegmentBody(seg)) =>
      if f.len == layout.commitReqLen then Some(Commit(seg)) else None
    case (FreeReq, SegmentBody(seg)) =>
      if f.len == layout.freeReqLen then Some(Free(seg)) else None
    case (GetSegmentListReq, Empty) =>
      if f.len == layout.getSegmentListReqLen then Some(GetSegmentList) else None
    case (GetSegmentMetadataReq, SegmentBody(seg)) =>
      if f.len == layout.getSegmentMetadataReqLen then Some(GetSegmentMetadata(seg)) else None
    case (RetrieveReq, SegmentBody(seg)) =>
      if f.len == layout.retrieveReqLen then Some(Retrieve(seg)) else None
    case _ => None
  }

  /** Every request frame carries its operation and arguments intact. */
  lemma DecodeEncode(layout: Layout, req: Request)
    requires WellFormed(req)
    ensures Decode(layout, Encode(layout, req)) == Some(req)
  {
  }

  /** Conversely, every frame that reads as a request is exactly the frame the stub builds for it. */
  lemma EncodeDecode(layout: Layout, f: Frame)
    requires Decode(layout, f).Some?
    ensures WellFormed(Decode(layout, f).value)
    ensures Encode(layout, Decode(layout, f).value) == f
  {
  }

  /** A request's opcode and declared length are determined by the kind of request alone (the payload aside). */
  lemma FixedHeader(layout: Layout, req: Request)
    requires WellFormed(req)
    ensures var f := Encode(layout, req);
      (req.Heartbeat? ==> f.opcode == HeartbeatReq && f.len == layout.heartbeatReqLen) &&
      (req.Commit? ==> f.opcode == CommitReq && f.len == layout.commitReqLen) &&
      (req.Free? ==> f.opcode == FreeReq && f.len == layout.freeReqLen) &&
      (req.GetSegmentList? ==> f.opcode == GetSegmentListReq && f.len == layout.getSegmentListReqLen) &&
      (req.GetSegmentMetadata? ==> f.opcode == GetSegmentMetadataReq && f.len == layout.getSegmentMetadataReqLen) &&
      (req.Retrieve? ==> f.opcode == RetrieveReq && f.len == layout.retrieveReqLen) &&
      (req.Write? ==> f.opcode == WriteReq && f.len == layout.writeReqLenWoData + |req.data|)
  {
  }

  // ---------------------------------------------------------------------------
  // The write length check

  /** The write is admitted: header plus payload fit in one frame of at most MAX_RPC_LEN bytes. */
  predicate WriteFits(layout: Layout, len: nat) {
    WriteFrameLen(layout, len) <= layout.maxRpcLen
  }

  /** An admitted write request is a frame no longer than MAX_RPC_LEN, so it fits the stub's request buffer. */
  lemma AdmittedWriteFitsBuffer(layout: Layout, seg: u64, off: u32, data: seq<byte>)
    requires |data| < U32_LIMIT && WriteFits(layout, |data|)
    ensures Encode(layout, Write(seg, off, data)).len <= layout.maxRpcLen
    ensures Encode(layout, Write(seg, off, data)).body.data == data
  {
  }

  /**
   * The header length as the source computes it: the sum is stored in the
   * 32-bit length field of the header before it is compared with MAX_RPC_LEN.
   */
  function WriteHeaderLenAsWritten(layout: Layout, len: u32): (h: u32)
    ensures h <= layout.writeReqLenWoData + len
    ensures layout.writeReqLenWoData + len < U32_LIMIT ==> h == layout.writeReqLenWoData + len
    ensures layout.writeReqLenWoData + len >= U32_LIMIT ==> h == layout.writeReqLenWoData + len - U32_LIMIT
  {
    (layout.writeReqLenWoData + len) % U32_LIMIT
  }

  /** The source's check admits the write exactly when the wrapped header length is at most MAX_RPC_LEN. */
  predicate AdmittedAsWritten(layout: Layout, len: u32) {
    !(WriteHeaderLenAsWritten(layout, len) > layout.maxRpcLen)
  }

  /**
   * With a payload of 2^32 - WRITE_REQ_LEN_WODATA bytes the stored header
   * length wraps to 0, so the source's check lets through a write whose frame
   * is far longer than MAX_RPC_LEN.
   */
  lemma WrappedWriteLengthIsAdmitted(layout: Layout)
    requires 0 < layout.writeReqLenWoData
    requires layout.maxRpcLen < U32_LIMIT - layout.writeReqLenWoData
    ensures var len: u32 := U32_LIMIT - layout.writeReqLenWoData;
      AdmittedAsWritten(layout, len) && !WriteFits(layout, len)
  {
    var len: u32 := U32_LIMIT - layout.writeReqLenWoData;
    assert layout.writeReqLenWoData + len == U32_LIMIT;
  }

  /** Where the sum does not wrap, the source's check and WriteFits agree. */
  lemma WriteCheckAgreesWithoutWrap(layout: Layout, len: u32)
    requires layout.writeReqLenWoData + len < U32_LIMIT
    ensures AdmittedAsWritten(layout, len) <==> WriteFits(layout, len)
  {
  }

  // ---------------------------------------------------------------------------
  // Responses

  /**
   * What recvRPC makes of one delivered frame: the received length must equal
   * the declared one, and an error response becomes a BackupRPCException
   * carrying the response's message.
   */
  function CheckResponse(d: Delivery): (r: Result<Frame>)
    ensures r.Ok? <==> d.received == d.frame.len && d.frame.opcode != ErrorResp
    ensures r.Ok? ==> r.value == d.frame
    ensures d.received != d.frame.len ==> r == Err(LengthAssertionFailed(d.received, d.frame.len))
    ensures d.received == d.frame.len && d.frame.opcode == ErrorResp && d.frame.body.ErrorBody? ==>
              r == Err(BackupRPCException(d.frame.body.message))
  {
    if d.received != d.frame.len then
      Err(LengthAssertionFailed(d.received, d.frame.len))
    else if d.frame.opcode == ErrorResp then
      match d.frame.body
      case ErrorBody(m) => Err(BackupRPCException(m))
      case _ => Err(MalformedResponse)
    else
      Ok(d.frame)
  }

  /** The response the next receive yields from the transport's queue of deliveries. */
  function Receive(inbox: seq<Delivery>): Result<Frame> {
    if inbox == [] then Err(ConnectionLost) else CheckResponse(inbox[0])
  }

  /** The queue after one receive. */
  function Rest(inbox: seq<Delivery>): (rest: seq<Delivery>)
    ensures inbox != [] ==> inbox == [inbox[0]] + rest
    ensures inbox == [] ==> rest == []
  {
    if inbox == [] then [] else inbox[1..]
  }

  /** Outcome of an operation that only needs the response to be accepted (heartbeat, write, commit, free). */
  function Acknowledged(resp: Result<Frame>): (o: Outcome)
    ensures o.Pass? <==> resp.Ok?
    ensures resp.Err? ==> o == Fail(resp.failure)
  {
    match resp
    case Ok(_) => Pass
    case Err(e) => Fail(e)
  }

  /**
   * The size negotiation of getSegmentList and getSegmentMetadata: the
   * reported entries are handed over only if the caller's buffer can hold
   * them all.
   */
  function Negotiate<T>(entries: seq<T>, maxSize: nat): (r: Result<seq<T>>)
    ensures r.Ok? <==> |entries| <= maxSize
    ensures r.Ok? ==> r.value == entries
    ensures r.Err? ==> r.failure == BackupRPCException(BUFFER_TOO_SMALL)
  {
    if maxSize < |entries| then Err(BackupRPCException(BUFFER_TOO_SMALL)) else Ok(entries)
  }

  /** The segment ids getSegmentList hands to its caller, or why it fails. */
  function SegmentListOutcome(resp: Result<Frame>, maxSize: nat): (r: Result<seq<u64>>)
    ensures resp.Err? ==> r == Err(resp.failure)
    ensures r.Ok? <==> resp.Ok? && resp.value.body.SegmentListBody? && |resp.value.body.segIds| <= maxSize
    ensures r.Ok? ==> r.value == resp.value.body.segIds
    ensures resp.Ok? && resp.value.body.SegmentListBody? && maxSize < |resp.value.body.segIds| ==>
              r == Err(BackupRPCException(BUFFER_TOO_SMALL))
  {
    match resp
    case Err(e) => Err(e)
    case Ok(f) =>
      match f.body
      case SegmentListBody(ids) => Negotiate(ids, maxSize)
      case _ => Err(MalformedResponse)
  }

  /** The metadata entries getSegmentMetadata hands to its caller, or why it fails. */
  function MetadataOutcome(resp: Result<Frame>, maxSize: nat): (r: Result<seq<ObjectMetadata>>)
    ensures resp.Err? ==> r == Err(resp.failure)
    ensures r.Ok? <==> resp.Ok? && resp.value.body.MetadataBody? && |resp.value.body.entries| <= maxSize
    ensures r.Ok? ==> r.value == resp.value.body.entries
    ensures resp.Ok? && resp.value.body.MetadataBody? && maxSize < |resp.value.body.entries| ==>
              r == Err(BackupRPCException(BUFFER_TOO_SMALL))
  {
    match resp
    case Err(e) => Err(e)
    case Ok(f) =>
      match f.body
      case MetadataBody(entries) => Negotiate(entries, maxSize)
      case _ => Err(MalformedResponse)
  }

  /** The segment bytes retrieveSegment copies out, or why it fails. */
  function RetrieveOutcome(resp: Result<Frame>): (r: Result<seq<byte>>)
    ensures resp.Err? ==> r == Err(resp.failure)
    ensures r.Ok? <==> resp.Ok? && resp.value.body.RetrieveBody?
    ensures r.Ok? ==> r.value == resp.value.body.data
  {
    match resp
    case Err(e) => Err(e)
    case Ok(f) =>
      match f.body
      case RetrieveBody(data) => Ok(data)
      case _ => Err(MalformedResponse)
  }

  /** A buffer after the first |entries| elements were overwritten by `entries` (memcpy). */
  function Overlay<T>(buf: seq<T>, entries: seq<T>): (r: seq<T>)
    requires |entries| <= |buf|
    ensures |r| == |buf|
    ensures forall i :: 0 <= i < |entries| ==> r[i] == entries[i]
    ensures forall i :: |entries| <= i < |buf| ==> r[i] == buf[i]
  {
    entries + buf[|entries|..]
  }

  /** An error response reaches the caller with exactly the backup's message, whatever the operation. */
  lemma ErrorMessagePassesThrough(inbox: seq<Delivery>, m: string, maxSize: nat)
    requires inbox != [] && inbox[0].frame.opcode == ErrorResp && inbox[0].frame.body == ErrorBody(m)
    requires inbox[0].received == inbox[0].frame.len
    ensures Acknowledged(Receive(inbox)) == Fail(BackupRPCException(m))
    ensures SegmentListOutcome(Receive(inbox), maxSize) == Err(BackupRPCException(m))
    ensures MetadataOutcome(Receive(inbox), maxSize) == Err(BackupRPCException(m))
    ensures RetrieveOutcome(Receive(inbox)) == Err(BackupRPCException(m))
  {
  }
}
