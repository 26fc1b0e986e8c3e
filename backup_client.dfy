/**
 * The master-side backup stubs of src/BackupClient.cc: BackupHost issues one
 * blocking request/response exchange per operation over the transport it
 * owns, and MultiBackupClient forwards to at most one such host.  The Net
 * transport is replaced by `Transport`, which records the frames sent and
 * replays a fixed queue of deliveries.
 */
module BackupClient {
  import opened BackupRpc

  /** Stand-in for Net: the log of frames sent and the deliveries still to be received. */
  class Transport {
    var sent: seq<Frame>
    var inbox: seq<Delivery>
    /** The host that has taken ownership of this transport, if any. */
    ghost var owner: BackupHost?

    constructor (inbox: seq<Delivery>)
      ensures sent == [] && this.inbox == inbox && owner == null
    {
      sent := [];
      this.inbox := inbox;
      owner := null;
    }

    /** Transmits one frame of `f.len` bytes. */
    method Send(f: Frame)
      modifies this
      ensures sent == old(sent) + [f] && inbox == old(inbox) && owner == old(owner)
    {
      sent := sent + [f];
    }

    /** Hands over the next delivered frame, or nothing when the connection has nothing more. */
    method Recv() returns (d: Option<Delivery>)
      modifies this
      ensures sent == old(sent) && inbox == Rest(old(inbox)) && owner == old(owner)
      ensures old(inbox) == [] ==> d == None
      ensures old(inbox) != [] ==> d == Some(old(inbox)[0])
    {
      if inbox == [] {
        d := None;
      } else {
        d := Some(inbox[0]);
        inbox := inbox[1..];
      }
    }
  }

  /** One request `request` went out on `net` and exactly one delivery was consumed. */
  twostate predicate Exchanged(net: Transport, request: Frame)
    reads net
  {
    net.sent == old(net.sent) + [request] && net.inbox == Rest(old(net.inbox)) && net.owner == old(net.owner)
  }

  /** memcpy of `src` into the front of `dst`. */
  method CopyInto<T>(dst: array<T>, src: seq<T>)
    requires |src| <= dst.Length
    modifies dst
    ensures dst[..] == Overlay(old(dst[..]), src)
  {
    forall i | 0 <= i < |src| {
      dst[i] := src[i];
    }
  }

  /** The stub for one backup server; it takes ownership of `net`, which no other host may hold. */
  class BackupHost {
    const net: Transport
    const layout: Layout

    constructor (net: Transport, layout: Layout)
      requires net.owner == null
      modifies net
      ensures this.net == net && this.layout == layout
      ensures net.owner == this && net.sent == old(net.sent) && net.inbox == old(net.inbox)
    {
      this.net := net;
      this.layout := layout;
      new;
      net.owner := this;
    }

    method SendRPC(rpc: Frame)
      modifies net
      ensures net.sent == old(net.sent) + [rpc] && net.inbox == old(net.inbox) && net.owner == old(net.owner)
    {
      net.Send(rpc);
    }

    /**
     * Receives one frame; a length that differs from the declared one fails
     * the assertion, and an error response becomes a BackupRPCException with
     * the response's message.
     */
    method RecvRPC() returns (resp: Result<Frame>)
      modifies net
      ensures resp == Receive(old(net.inbox))
      ensures net.sent == old(net.sent) && net.inbox == Rest(old(net.inbox)) && net.owner == old(net.owner)
    {
      var d := net.Recv();
      if d.None? {
        return Err(ConnectionLost);
      }
      var rpc := d.value.frame;
      if d.value.received != rpc.len {
        return Err(LengthAssertionFailed(d.value.received, rpc.len));
      }
      if rpc.opcode == ErrorResp {
        if rpc.body.ErrorBody? {
          return Err(BackupRPCException(rpc.body.message));
        }
        return Err(MalformedResponse);
      }
      resp := Ok(rpc);
    }

    method Heartbeat() returns (o: Outcome)
      modifies net
      ensures Exchanged(net, Encode(layout, Request.Heartbeat))
      ensures o == Acknowledged(Receive(old(net.inbox)))
    {
      var req := Frame(HeartbeatReq, layout.heartbeatReqLen, Empty);
      SendRPC(req);
      var resp := RecvRPC();
      o := if resp.Ok? then Pass else Fail(resp.failure);
    }

    /**
     * Sends `len` bytes of `data` for segment `segNum` at `offset`; a frame
     * longer than MAX_RPC_LEN is refused before anything is sent.
     */
    method WriteSegment(segNum: u64, offset: u32, data: seq<byte>, len: u32) returns (o: Outcome)
      requires len <= |data|
      modifies net
      ensures !WriteFits(layout, len) ==> o == Fail(BackupRPCException(WRITE_TOO_LONG)) && unchanged(net)
      ensures WriteFits(layout, len) ==> Exchanged(net, Encode(layout, Write(segNum, offset, data[..len])))
      ensures WriteFits(layout, len) ==> o == Acknowledged(Receive(old(net.inbox)))
    {
      var hdrLen := WriteFrameLen(layout, len);
      if hdrLen > layout.maxRpcLen {
        return Fail(BackupRPCException(WRITE_TOO_LONG));
      }
      var req := Frame(WriteReq, hdrLen, WriteBody(segNum, offset, len, data[..len]));
      SendRPC(req);
      var resp := RecvRPC();
      o := if resp.Ok? then Pass else Fail(resp.failure);
    }

    method CommitSegment(segNum: u64) returns (o: Outcome)
      modifies net
      ensures Exchanged(net, Encode(layout, Commit(segNum)))
      ensures o == Acknowledged(Receive(old(net.inbox)))
    {
      var req := Frame(CommitReq, layout.commitReqLen, SegmentBody(segNum));
      SendRPC(req);
      var resp := RecvRPC();
      o := if resp.Ok? then Pass else Fail(resp.failure);
    }

    method FreeSegment(segNum: u64) returns (o: Outcome)
      modifies net
      ensures Exchanged(net, Encode(layout, Free(segNum)))
      ensures o == Acknowledged(Receive(old(net.inbox)))
    {
      var req := Frame(FreeReq, layout.freeReqLen, SegmentBody(segNum));
      SendRPC(req);
      var resp := RecvRPC();
      o := if resp.Ok? then Pass else Fail(resp.failure);
    }

    /**
     * Fetches the backup's segment ids into `list`, which has room for
     * `maxSize` of them; when they do not all fit nothing is copied.
     */
    method GetSegmentList(list: array<u64>, maxSize: u32) returns (r: Result<u32>)
      requires maxSize <= list.Length
      modifies net, list
      ensures Exchanged(net, Encode(layout, Request.GetSegmentList))
      ensures match SegmentListOutcome(Receive(old(net.inbox)), maxSize)
        case Ok(ids) => r == Ok(|ids|) && list[..] == Overlay(old(list[..]), ids)
        case Err(e) => r == Err(e) && list[..] == old(list[..])
    {
      var req := Frame(GetSegmentListReq, layout.getSegmentListReqLen, Empty);
      SendRPC(req);
      var resp := RecvRPC();
      if resp.Err? {
        return Err(resp.failure);
      }
      if !resp.value.body.SegmentListBody? {
        return Err(MalformedResponse);
      }
      var tmpList := resp.value.body.segIds;
      if maxSize < |tmpList| {
        return Err(BackupRPCException(BUFFER_TOO_SMALL));
      }
      CopyInto(list, tmpList);
      r := Ok(|tmpList|);
    }

    /** Fetches the live-object descriptors of segment `segNum`, with the same size negotiation. */
    method GetSegmentMetadata(segNum: u64, list: array<ObjectMetadata>, maxSize: u32) returns (r: Result<u32>)
      requires maxSize <= list.Length
      modifies net, list
      ensures Exchanged(net, Encode(layout, Request.GetSegmentMetadata(segNum)))
      ensures match MetadataOutcome(Receive(old(net.inbox)), maxSize)
        case Ok(entries) => r == Ok(|entries|) && list[..] == Overlay(old(list[..]), entries)
        case Err(e) => r == Err(e) && list[..] == old(list[..])
    {
      var req := Frame(GetSegmentMetadataReq, layout.getSegmentMetadataReqLen, SegmentBody(segNum));
      SendRPC(req);
      var resp := RecvRPC();
      if resp.Err? {
        return Err(resp.failure);
      }
      if !resp.value.body.MetadataBody? {
        return Err(MalformedResponse);
      }
      var tmpList := resp.value.body.entries;
      if maxSize < |tmpList| {
        return Err(BackupRPCException(BUFFER_TOO_SMALL));
      }
      CopyInto(list, tmpList);
      r := Ok(|tmpList|);
    }

    /** Copies the whole segment into `buf`; the caller must know it is large enough. */
    method RetrieveSegment(segNum: u64, buf: array<byte>) returns (o: Outcome)
      requires RetrieveOutcome(Receive(net.inbox)).Ok? ==> |RetrieveOutcome(Receive(net.inbox)).value| <= buf.Length
      modifies net, buf
      ensures Exchanged(net, Encode(layout, Retrieve(segNum)))
      ensures match RetrieveOutcome(Receive(old(net.inbox)))
        case Ok(data) => o == Pass && buf[..] == Overlay(old(buf[..]), data)
        case Err(e) => o == Fail(e) && buf[..] == old(buf[..])
    {
      var req := Frame(RetrieveReq, layout.retrieveReqLen, SegmentBody(segNum));
      SendRPC(req);
      var resp := RecvRPC();
      if resp.Err? {
        return Fail(resp.failure);
      }
      if !resp.value.body.RetrieveBody? {
        return Fail(MalformedResponse);
      }
      CopyInto(buf, resp.value.body.data);
      o := Pass;
    }
  }

  /** The fan-out client; it holds at most one host, and does nothing while it holds none. */
  class MultiBackupClient {
    const layout: Layout
    var host: BackupHost?

    constructor (layout: Layout)
      ensures this.layout == layout && host == null
    {
      this.layout := layout;
      host := null;
    }

    /**
     * Installs a host that takes ownership of `net`; a second host is refused
     * and the first one kept.
     */
    method AddHost(net: Transport) returns (o: Outcome)
      requires host == null ==> net.owner == null
      modifies this, net
      ensures old(host) != null ==> o == Fail(BackupRPCException(ONE_HOST_ONLY)) && host == old(host) && unchanged(net)
      ensures old(host) == null ==> o == Pass && host != null && fresh(host)
      ensures old(host) == null ==> host.net == net && host.layout == layout && net.owner == host
      ensures old(host) == null ==> net.sent == old(net.sent) && net.inbox == old(net.inbox)
    {
      if host != null {
        return Fail(BackupRPCException(ONE_HOST_ONLY));
      }
      host := new BackupHost(net, layout);
      o := Pass;
    }

    method Heartbeat() returns (o: Outcome)
      modifies if host == null then {} else {host.net}
      ensures host == null ==> o == Pass
      ensures host != null ==> Exchanged(host.net, Encode(host.layout, Request.Heartbeat))
      ensures host != null ==> o == Acknowledged(Receive(old(host.net.inbox)))
    {
      o := Pass;
      if host != null {
        o := host.Heartbeat();
      }
    }

    method WriteSegment(segNum: u64, offset: u32, data: seq<byte>, len: u32) returns (o: Outcome)
      requires host != null ==> len <= |data|
      modifies if host == null then {} else {host.net}
      ensures host == null ==> o == Pass
      ensures host != null && !WriteFits(host.layout, len) ==>
                o == Fail(BackupRPCException(WRITE_TOO_LONG)) && unchanged(host.net)
      ensures host != null && WriteFits(host.layout, len) ==>
                Exchanged(host.net, Encode(host.layout, Write(segNum, offset, data[..len]))) &&
                o == Acknowledged(Receive(old(host.net.inbox)))
    {
      o := Pass;
      if host != null {
        o := host.WriteSegment(segNum, offset, data, len);
      }
    }

    method CommitSegment(segNum: u64) returns (o: Outcome)
      modifies if host == null then {} else {host.net}
      ensures host == null ==> o == Pass
      ensures host != null ==> Exchanged(host.net, Encode(host.layout, Commit(segNum)))
      ensures host != null ==> o == Acknowledged(Receive(old(host.net.inbox)))
    {
      o := Pass;
      if host != null {
        o := host.CommitSegment(segNum);
      }
    }

    method FreeSegment(segNum: u64) returns (o: Outcome)
      modifies if host == null then {} else {host.net}
      ensures host == null ==> o == Pass
      ensures host != null ==> Exchanged(host.net, Encode(host.layout, Free(segNum)))
      ensures host != null ==> o == Acknowledged(Receive(old(host.net.inbox)))
    {
      o := Pass;
      if host != null {
        o := host.FreeSegment(segNum);
      }
    }

    method GetSegmentList(list: array<u64>, maxSize: u32) returns (r: Result<u32>)
      requires host != null ==> maxSize <= list.Length
      modifies (if host == null then {} else {host.net}), list
      ensures host == null ==> r == Ok(0) && list[..] == old(list[..])
      ensures host != null ==> Exchanged(host.net, Encode(host.layout, Request.GetSegmentList))
      ensures host != null ==> match SegmentListOutcome(Receive(old(host.net.inbox)), maxSize)
        case Ok(ids) => r == Ok(|ids|) && list[..] == Overlay(old(list[..]), ids)
        case Err(e) => r == Err(e) && list[..] == old(list[..])
    {
      if host != null {
        r := host.GetSegmentList(list, maxSize);
        return;
      }
      r := Ok(0);
    }

    method GetSegmentMetadata(segNum: u64, list: array<ObjectMetadata>, maxSize: u32) returns (r: Result<u32>)
      requires host != null ==> maxSize <= list.Length
      modifies (if host == null then {} else {host.net}), list
      ensures host == null ==> r == Ok(0) && list[..] == old(list[..])
      ensures host != null ==> Exchanged(host.net, Encode(host.layout, Request.GetSegmentMetadata(segNum)))
      ensures host != null ==> match MetadataOutcome(Receive(old(host.net.inbox)), maxSize)
        case Ok(entries) => r == Ok(|entries|) && list[..] == Overlay(old(list[..]), entries)
        case Err(e) => r == Err(e) && list[..] == old(list[..])
    {
      if host != null {
        r := host.GetSegmentMetadata(segNum, list, maxSize);
        return;
      }
      r := Ok(0);
    }

    method RetrieveSegment(segNum: u64, buf: array<byte>) returns (o: Outcome)
      requires host != null && RetrieveOutcome(Receive(host.net.inbox)).Ok? ==>
                 |RetrieveOutcome(Receive(host.net.inbox)).value| <= buf.Length
      modifies (if host == null then {} else {host.net}), buf
      ensures host == null ==> o == Pass && buf[..] == old(buf[..])
      ensures host != null ==> Exchanged(host.net, Encode(host.layout, Retrieve(segNum)))
      ensures host != null ==> match RetrieveOutcome(Receive(old(host.net.inbox)))
        case Ok(data) => o == Pass && buf[..] == Overlay(old(buf[..]), data)
        case Err(e) => o == Fail(e) && buf[..] == old(buf[..])
    {
      o := Pass;
      if host != null {
        o := host.RetrieveSegment(segNum, buf);
      }
    }
  }

  // ---------------------------------------------------------------------------
  // Exchanges against a scripted transport

  /** A write whose frame would be MAX_RPC_LEN + 1 bytes long is refused and nothing is sent. */
  method OversizedWriteSendsNothing(layout: Layout, segNum: u64) returns (o: Outcome, sent: seq<Frame>)
    requires layout.writeReqLenWoData <= layout.maxRpcLen + 1
    requires layout.maxRpcLen + 1 - layout.writeReqLenWoData < U32_LIMIT
    ensures o == Fail(BackupRPCException(WRITE_TOO_LONG)) && sent == []
  {
    var net := new Transport([]);
    var host := new BackupHost(net, layout);
    var len: u32 := layout.maxRpcLen + 1 - layout.writeReqLenWoData;
    o := host.WriteSegment(segNum, 0, seq(len, _ => 0), len);
    sent := net.sent;
  }

  /** A backup answering a write with an error response "disk full" makes the write fail with that message. */
  method DiskFullWrite(layout: Layout, segNum: u64, offset: u32) returns (o: Outcome, sent: seq<Frame>)
    requires WriteFits(layout, 0)
    ensures o == Fail(BackupRPCException("disk full"))
    ensures sent == [Frame(WriteReq, layout.writeReqLenWoData, WriteBody(segNum, offset, 0, []))]
  {
    var reply := Frame(ErrorResp, 16, ErrorBody("disk full"));
    var net := new Transport([Delivery(reply, 16)]);
    var host := new BackupHost(net, layout);
    o := host.WriteSegment(segNum, offset, [], 0);
    sent := net.sent;
  }

  /** A segment list of two ids offered to a buffer of one fails and leaves the buffer as it was. */
  method ListIntoSmallBuffer(layout: Layout) returns (r: Result<u32>, contents: seq<u64>)
    ensures r == Err(BackupRPCException(BUFFER_TOO_SMALL))
    ensures contents == [7]
  {
    var reply := Frame(GetSegmentListResp, 24, SegmentListBody([1, 2]));
    var net := new Transport([Delivery(reply, 24)]);
    var host := new BackupHost(net, layout);
    var list := new u64[1](_ => 7);
    r := host.GetSegmentList(list, 1);
    contents := list[..];
  }

  /** A second host is refused and the first keeps serving: the heartbeat goes to the first transport only. */
  method SecondHostRefused(layout: Layout) returns (first: Outcome, second: Outcome, beat: Outcome,
                                                     sentFirst: seq<Frame>, sentSecond: seq<Frame>)
    ensures first == Pass && second == Fail(BackupRPCException(ONE_HOST_ONLY))
    ensures beat == Pass
    ensures sentFirst == [Frame(HeartbeatReq, layout.heartbeatReqLen, Empty)] && sentSecond == []
  {
    var reply := Frame(HeartbeatResp, 8, Empty);
    var net1 := new Transport([Delivery(reply, 8)]);
    var net2 := new Transport([Delivery(reply, 8)]);
    var client := new MultiBackupClient(layout);
    first := client.AddHost(net1);
    second := client.AddHost(net2);
    beat := client.Heartbeat();
    sentFirst, sentSecond := net1.sent, net2.sent;
  }

  /** With no host every operation is a no-op: nothing is sent and the list calls report 0 entries. */
  method NoHostIsNoOp(layout: Layout) returns (beat: Outcome, write: Outcome, count: Result<u32>)
    ensures beat == Pass && write == Pass && count == Ok(0)
  {
    var client := new MultiBackupClient(layout);
    beat := client.Heartbeat();
    write := client.WriteSegment(1, 0, [1, 2, 3], 3);
    var list := new u64[0];
    count := client.GetSegmentList(list, 0);
  }
}
