# Backup RPC stubs and the linearizable-RPC id tracker, modelled in Dafny

This project models two pieces of a distributed in-memory storage engine. It
also proves properties of both models.

- **RpcTracker** (`rpc_tracker.dfy`, module `RpcTracking`). A client session
  uses it to hand out RPC ids and to compute the acknowledgment watermark. A
  server can drop deduplication state for every id at or below that watermark.
  The state is a ring of `windowSize` completion flags indexed by
  `id % windowSize`, plus the counters `firstMissing` and `nextRpcId`. The class
  keeps the invariant `firstMissing <= nextRpcId <= firstMissing + windowSize`.
  Two ghost sets give the abstract meaning: `issued` holds the ids handed out so
  far and `finished` holds the ids whose results were received. For every
  outstanding id, its slot is set exactly when that id has finished. The sweep
  of `firstMissing` is proved to stop at `FirstMissingFrom`, the first
  unfinished id.
- **Backup wire protocol** (`backup_rpc.dfy`, module `BackupRpc`). This file
  holds the frames (opcode, declared length and body), the request frames the
  master-side stub builds, and the checks the stub applies to every response:
  the received length must equal the declared one, and an error response
  becomes a `BackupRPCException` carrying the response's message. It also
  defines what each operation makes of a response, including the buffer-size
  negotiation of the segment-list and metadata calls. `Decode` reads a request
  back from a frame, and two lemmas show that `Encode` and `Decode` are inverse.
- **BackupHost and MultiBackupClient** (`backup_client.dfy`, module
  `BackupClient`). These are the stub classes. Each operation is one send
  followed by one receive over a transport the host owns. Results are copied
  into the caller's arrays. The fan-out client holds at most one host: a second
  `AddHost` is refused, and with no host every call does nothing. The network
  transport is replaced by `Transport`, which records every frame sent and
  replays a fixed queue of deliveries. A ghost `owner` field records the host
  that has taken ownership of a transport, and no second host can take it.
  Five scripted exchanges show an oversized write, a "disk full" error
  response, a buffer that is too small, a second host, and a client with no
  host.

The protocol constants (`MAX_RPC_LEN`, the write header length without data,
and the fixed request lengths) are symbolic: they are the fields of a `Layout`
value given to the host and the client. The error paths are values of type
`Failure`, returned inside `Result`/`Outcome`, and are not C++ exceptions.

The code raises one exception type, `BackupRPCException`, for every failure it
reports; the model keeps that type and the code's message strings.

## Model

| member | source | states |
|---|---|---|
| `RpcTracking.FirstMissingFrom` | src/RpcTracker.cc:36-39 | The sweep's end point lies between its start and `nextRpcId`. Every id it passes has finished. If it stops below `nextRpcId`, the id it stops at has not finished. |
| `RpcTracking.FirstMissingFromIs` | src/RpcTracker.cc:36-39 | Any stopping point that passes only finished ids and stops at `nextRpcId` or at an unfinished id is the sweep's end point. So the loop's exit condition determines where `firstMissing` ends. |
| `RpcTracking.MarkSlot` | src/RpcTracker.cc:35 | Setting the slot of an outstanding id changes the recorded status of that id only, because outstanding ids occupy distinct slots. |
| `RpcTracking.ClearSlot` | src/RpcTracker.cc:55 | When the window is not full, clearing the slot of the next id adds it as unfinished and leaves every outstanding id's status alone. |
| `RpcTracking.RpcTracker.Outstanding` | src/RpcTracker.cc:52 | Counts the issued ids at or above `firstMissing`. Every issued id whose result has not been received lies in `[firstMissing, nextRpcId)`, so at most `windowSize` RPCs are in flight. Zero are outstanding exactly when `firstMissing == nextRpcId`. |
| `RpcTracking.RpcTracker.RpcFinished` | src/RpcTracker.cc:33-40 | Needs the id in `[firstMissing, nextRpcId)` with its slot clear. Adds the id to `finished` and sets only its slot. Keeps the window invariant. `firstMissing` stays put unless the id was `firstMissing`. `firstMissing` ends at the first unfinished id at or after its old value. |
| `RpcTracking.RpcTracker.NewRpcId` | src/RpcTracker.cc:51-57 | Returns 0 exactly when `firstMissing + windowSize == nextRpcId`, and then changes nothing. Otherwise it returns the old `nextRpcId`, raises `nextRpcId` by 1 and clears only that id's slot. The id was never issued before and is larger than every earlier id. Keeps the window invariant. |
| `RpcTracking.RpcTracker.AckId` | src/RpcTracker.cc:67-69 | Every id from 1 up to the watermark has finished. The id just above it, if issued, has not. The watermark is below `nextRpcId`. |
| `RpcTracking.WindowOfFourFills` | src/RpcTracker.cc:51-57 | A window of 4 hands out ids 1, 2, 3 and 4 and then answers a fifth request with 0. |
| `RpcTracking.WatermarkWaitsForGap` | src/RpcTracker.cc:33-69 | With ids 1 to 4 outstanding, finishing 2, 3 and 4 leaves the watermark at 0. Finishing 1 then moves it to 4. |
| `BackupRpc.DecodeEncode` | src/BackupClient.cc:73-232 | Every request frame the stub builds reads back as the same operation with the same arguments. |
| `BackupRpc.EncodeDecode` | src/BackupClient.cc:98-113 | A frame that reads as a request is exactly the frame built for it. For a write, that means length = header + `len` and the body carries `seg_num`, `off`, `len` and exactly `len` data bytes. |
| `BackupRpc.FixedHeader` | src/BackupClient.cc:73-230 | Each request kind has its fixed opcode and fixed header length. A write's length is the header length without data plus the payload length. |
| `BackupRpc.AdmittedWriteFitsBuffer` | src/BackupClient.cc:98-111 | A write that passes the length check is a frame of at most `MAX_RPC_LEN` bytes and carries the caller's bytes unchanged. |
| `BackupRpc.WriteHeaderLenAsWritten` | src/BackupClient.cc:104 | The stored header length never exceeds the true sum. It equals the sum when the sum fits in 32 bits, and is the sum less 2^32 when it does not. |
| `BackupRpc.WrappedWriteLengthIsAdmitted` | src/BackupClient.cc:104-106 | A payload of 2^32 minus the header length passes the source's check, yet its frame exceeds `MAX_RPC_LEN`. |
| `BackupRpc.WriteCheckAgreesWithoutWrap` | src/BackupClient.cc:104-106 | When the sum does not wrap, the source's check and the corrected check admit the same writes. |
| `BackupRpc.CheckResponse` | src/BackupClient.cc:59-67 | A response is accepted exactly when the received length equals the declared length and it is not an error response. A length mismatch fails the assertion. An error response fails with exactly its message. |
| `BackupRpc.Rest` | src/BackupClient.cc:59 | A receive consumes exactly one delivery. |
| `BackupRpc.Acknowledged` | src/BackupClient.cc:81-82 | An operation that only waits for a reply succeeds exactly when the response is accepted. Otherwise it carries the response's failure. |
| `BackupRpc.Negotiate` | src/BackupClient.cc:179-188 | The entries are handed over, unchanged, exactly when their count is at most `maxSize`. Otherwise the call fails with the buffer-too-small message. |
| `BackupRpc.SegmentListOutcome` | src/BackupClient.cc:171-188 | A receive failure passes through unchanged. Success requires a segment-list response whose ids fit in `maxSize`, and yields exactly those ids. A list longer than `maxSize` fails with the buffer-too-small message. |
| `BackupRpc.MetadataOutcome` | src/BackupClient.cc:205-222 | Same as the list outcome, for the metadata entries of one segment, including the buffer-too-small failure. |
| `BackupRpc.RetrieveOutcome` | src/BackupClient.cc:238-244 | A receive failure passes through unchanged. A retrieve response yields exactly its data. |
| `BackupRpc.Overlay` | src/BackupClient.cc:184 | After the copy, the first `count` entries are those copied and every later entry is unchanged. |
| `BackupRpc.ErrorMessagePassesThrough` | src/BackupClient.cc:63-66 | An error response with message m makes every operation fail with exactly m. No copy happens. |
| `BackupClient.CopyInto` | src/BackupClient.cc:218 | Copies the entries into the front of the array and leaves the rest unchanged. |
| `BackupClient.BackupHost.constructor` | src/BackupClient.cc:32-41 | Needs a transport no host owns yet. Binds the host to it and records the host as its owner; nothing is sent or received. |
| `BackupClient.BackupHost.SendRPC` | src/BackupClient.cc:51-54 | Appends exactly the given frame to the sent log. |
| `BackupClient.BackupHost.RecvRPC` | src/BackupClient.cc:57-68 | Consumes one delivery and returns `Receive` of the old queue. Nothing is sent. |
| `BackupClient.BackupHost.Heartbeat` | src/BackupClient.cc:71-86 | Sends exactly the heartbeat request, receives once, and reports the response's failure if any. |
| `BackupClient.BackupHost.WriteSegment` | src/BackupClient.cc:89-117 | With header + `len` above `MAX_RPC_LEN` it fails with "Write RPC would be too long" and sends and receives nothing. Otherwise it sends exactly the write frame with the first `len` data bytes, then receives once. |
| `BackupClient.BackupHost.CommitSegment` | src/BackupClient.cc:120-137 | Sends exactly the commit request for the segment, then receives once. |
| `BackupClient.BackupHost.FreeSegment` | src/BackupClient.cc:140-157 | Sends exactly the free request for the segment, then receives once. |
| `BackupClient.BackupHost.GetSegmentList` | src/BackupClient.cc:160-189 | Sends one list request and receives once. On success it returns the count and copies exactly those ids into the front of the buffer, leaving the rest unchanged. On any failure (including buffer too small) the buffer is unchanged. |
| `BackupClient.BackupHost.GetSegmentMetadata` | src/BackupClient.cc:192-223 | Same contract as the list call, for one segment's metadata entries. |
| `BackupClient.BackupHost.RetrieveSegment` | src/BackupClient.cc:226-248 | Sends one retrieve request and receives once. On success the segment's bytes are copied into the front of the buffer. On failure the buffer is unchanged. |
| `BackupClient.MultiBackupClient.constructor` | src/BackupClient.cc:252-255 | A new client has no host. |
| `BackupClient.MultiBackupClient.AddHost` | src/BackupClient.cc:264-275 | With a host already installed it fails with "Only one backup host currently supported", keeps that host and leaves the transport untouched. Otherwise the transport must be unowned, and a new host is installed that owns it. |
| `BackupClient.MultiBackupClient.Heartbeat` | src/BackupClient.cc:278-282 | With no host it succeeds and changes nothing. With a host it does exactly what the host's heartbeat does. |
| `BackupClient.MultiBackupClient.WriteSegment` | src/BackupClient.cc:285-292 | With no host it succeeds and changes nothing. With a host it forwards the write unchanged. |
| `BackupClient.MultiBackupClient.CommitSegment` | src/BackupClient.cc:295-299 | With no host it succeeds and changes nothing. With a host it forwards the commit. |
| `BackupClient.MultiBackupClient.FreeSegment` | src/BackupClient.cc:302-306 | With no host it succeeds and changes nothing. With a host it forwards the free. |
| `BackupClient.MultiBackupClient.GetSegmentList` | src/BackupClient.cc:309-316 | With no host it returns 0 and leaves the buffer unchanged. With a host it has the host's list contract. |
| `BackupClient.MultiBackupClient.GetSegmentMetadata` | src/BackupClient.cc:319-326 | With no host it returns 0 and leaves the buffer unchanged. With a host it has the host's metadata contract. |
| `BackupClient.MultiBackupClient.RetrieveSegment` | src/BackupClient.cc:329-334 | With no host it changes nothing. With a host it has the host's retrieve contract. |
| `BackupClient.OversizedWriteSendsNothing` | src/BackupClient.cc:103-106 | A write whose frame would be `MAX_RPC_LEN + 1` bytes fails with the too-long message and sends no frame. |
| `BackupClient.DiskFullWrite` | src/BackupClient.cc:63-66 | A backup that answers a write with an error response "disk full" makes the write fail with exactly "disk full". |
| `BackupClient.ListIntoSmallBuffer` | src/BackupClient.cc:179-181 | Two ids offered to a one-entry buffer fail with the buffer-too-small message and leave the buffer's contents as they were. |
| `BackupClient.SecondHostRefused` | src/BackupClient.cc:270-282 | The second `AddHost` fails. The first host keeps serving: a heartbeat goes to the first transport and not to the second. |
| `BackupClient.NoHostIsNoOp` | src/BackupClient.cc:278-316 | Without a host, heartbeat and write succeed and the list call returns 0. |

## Left out

- The network transport (`Net::Send`/`Net::Recv`) is foreign I/O. `Transport` stands in for it: a log of sent frames and a queue of deliveries. An empty queue is taken as a lost connection (`ConnectionLost`). The real transport's failure behaviour is unknown here.
- The byte layout of `backup_rpc` and the numeric values of the opcodes and lengths are defined in `backuprpc.h` and `BackupClient.h`, which are not part of this model. Frames are typed values, and the constants are the fields of `Layout`.
- The count fields of list and metadata responses (`seg_list_count`, `list_count`) are taken to be the number of entries the response carries, and a retrieve response's `data_len` the number of bytes it carries (`RetrieveBody.data`). `RecoveryObjectMetadata` entries are opaque byte strings.
- A list, metadata or retrieve response whose body does not have the expected shape fails with `MalformedResponse`. The source has no such check: it reinterprets whatever bytes arrived, which cannot be modelled.
- The response opcodes other than the error response are not checked by the source, and the model does not check them either.
- `recvRPC`'s length assertion is modelled as the failure value `LengthAssertionFailed`, which stops the operation. The process abort that the failed `assert` causes is not modelled: the host stays usable for later calls. A build without assertions would continue instead; that is not modelled either.
- `printf`/`debug_noisy` logging is left out.
- Deletion of `Net` and `BackupHost` (destructors, `delete`) is left out. The ownership transfer of `Net` is modelled by the ghost `Transport.owner`. A transport that `AddHost` refuses is left to its caller, unowned.
- What a backup does with write, commit, free and retrieve is server-side and not part of this model. So is a write/commit/retrieve round trip.
- Sorting or merging segment lists across backups is left out, because the source leaves it undone as a TODO.
- `BackupClient.BackupHost.RetrieveSegment`: the buffer must be large enough for the retrieved segment, as a caller precondition. The source copies `data_len` bytes without checking.
- `RpcTracker.h` is not part of this model. The window size is a constructor parameter (positive), and both counters start at 1, so the sentinel 0 is never issued.
- `RpcTracking.RpcTracker.RpcFinished`: requires `firstMissing <= id < nextRpcId` besides the source's assertion that the slot is clear. The source assumes callers pass an id that is issued and not yet finished. It does not check the range.
- The 64-bit counters of the tracker are unbounded here. Wrap-around after 2^64 ids is not modelled.
- Concurrency is left out: none exists in these files.

## Findings

| source | as written | input that shows it | evidently intended | confidence | as-written member | corrected member |
|---|---|---|---|---|---|---|
| src/BackupClient.cc:104-105 | `WRITE_REQ_LEN_WODATA + len` is stored in the header's 32-bit length field before it is compared with `MAX_RPC_LEN`, so the sum can wrap. The field is 32 bits wide, as the `uint32_t` casts of the other lengths at lines 75, 124 and 144 indicate. | `len = 2^32 - WRITE_REQ_LEN_WODATA`: the stored length becomes 0 and the check passes. `memcpy` then copies `len` bytes into the `MAX_RPC_LEN`-byte request buffer. | Refuse every write whose header plus payload exceeds `MAX_RPC_LEN`. | medium, not executed (the header's field type is declared in `backuprpc.h`, which is not part of this model) | `BackupRpc.WrappedWriteLengthIsAdmitted` | `BackupRpc.AdmittedWriteFitsBuffer` |

`BackupClient.BackupHost.WriteSegment` uses the corrected check (`WriteFits`, computed without wrap-around).
