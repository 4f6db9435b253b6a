/** `SerialBridge`: the host side of the serial bridge that asks real controller
    hardware for the CRC of a packet. Each method is proved to do exactly what the
    matching function of `Protocol` says it does to the port. */
module Devices {
  import opened Wrappers
  import opened Bytes
  import opened Serial
  import opened Protocol

  /** The port `SerialBridge` opens unless told otherwise. */
  const DefaultDevice: string := "/dev/ttyUSB0"
  const BaudRate: int := 38400
  /** Seconds a read waits before returning what it has. */
  const ReadTimeout: int := 1

  class SerialBridge {
    /** The open serial connection. */
    const fd: Port

    /** Opens `dev` (by default `/dev/ttyUSB0`) at 38400 baud with a one-second read
        timeout; the device behind it will answer with `replies`, one per read. */
    constructor (replies: seq<seq<byte>>, dev: string := DefaultDevice)
      ensures fresh(fd)
      ensures fd.device == dev && fd.baudrate == BaudRate && fd.timeout == ReadTimeout
      ensures fd.written == [] && fd.pending == replies
    {
      fd := new Port(dev, BaudRate, ReadTimeout, replies);
    }

    /** Sends the frame for `data` until one read returns exactly `replyBytes + 1`
        bytes, and splits that reply into status byte and payload. */
    method Write(data: seq<byte>, replyBytes: int := 0) returns (res: Result<(seq<byte>, seq<byte>), Error>)
      modifies fd
      ensures var t := Transact(old(fd.pending), data, replyBytes);
              res == t.outcome &&
              fd.written == old(fd.written) + t.sent &&
              fd.pending == old(fd.pending)[|t.sent|..]
    {
      ghost var script := fd.pending;
      ghost var frames: seq<seq<byte>> := [];
      ghost var size := replyBytes + 1;
      ghost var enc := EncodeFrame(data, replyBytes);
      var r: seq<byte> := [];
      while |r| != replyBytes + 1
        invariant |frames| <= |script| && fd.pending == script[|frames|..]
        invariant fd.written == old(fd.written) + frames
        invariant frames == [] ==> r == []
        // every attempt so far wrote the one frame and read the next reply
        invariant frames != [] ==>
                    enc.Some? && frames == Repeat(enc.value, |frames|) &&
                    r == Received(script[|frames| - 1], size)
        // and every reply before the last read was too short
        invariant forall j :: 0 <= j < |frames| - 1 ==> |script[j]| < size
        decreases |fd.pending|
      {
        var frame := EncodeFrame(data, replyBytes);
        if frame.None? {
          return Failure(StructError);
        }
        if fd.pending == [] {
          // the device has nothing more to say: the bridge would re-send for ever
          assert FirstFull(script, size) == |script|;
          return Failure(Unanswered);
        }
        fd.Write(frame.value);
        r := fd.Read(replyBytes + 1);
        frames := frames + [frame.value];
      }
      assert frames != [] ==> FirstFull(script, size) == |frames| - 1;
      match SplitReply(r)
      case None => res := Failure(IndexError);
      case Some(parts) => res := Success(parts);
    }

    /** Writes `packet` to the controller bus at `address`; the reply carries one CRC byte. */
    method BusWrite(packet: seq<byte>, address: int) returns (res: Result<(seq<byte>, seq<byte>), Error>)
      modifies fd
      ensures var t := BusWriteSpec(old(fd.pending), packet, address);
              res == t.outcome &&
              fd.written == old(fd.written) + t.sent &&
              fd.pending == old(fd.pending)[|t.sent|..]
    {
      var payload := BusWritePayload(packet, address);
      if payload.None? {
        return Failure(StructError);
      }
      res := Write(payload.value, CrcReplyBytes);
    }

    /** The 8-bit CRC the controller hardware computes for `packet`, written to the
        bus at `address` (by default 0x8001). */
    method RefCRC(packet: seq<byte>, address: int := DefaultAddress) returns (res: Result<byte, Error>)
      modifies fd
      ensures var q := RefCrcSpec(old(fd.pending), packet, address);
              res == q.crc &&
              fd.written == old(fd.written) + q.sent &&
              fd.pending == old(fd.pending)[|q.sent|..]
    {
      var reply := BusWrite(packet, address);
      match reply
      case Failure(e) => res := Failure(e);
      case Success(parts) => res := Success(FromBytesBig(parts.1));
    }

    /** Queries the CRC of every packet in order, reporting one line per packet, and
        returns the map from packet to CRC. On an error the lines reported so far stay
        reported and the error is returned instead of the map. */
    method GenVectors(packets: seq<seq<byte>>) returns (res: Result<map<seq<byte>, byte>, Error>, lines: seq<string>)
      modifies fd
      ensures var run := GenRun(old(fd.pending), packets);
              fd.written == old(fd.written) + run.sent &&
              fd.pending == run.left &&
              lines == Report(packets, run.crcs) &&
              res == if run.failure.Some? then Failure(run.failure.value) else Success(BuildMap(packets, run.crcs))
    {
      ghost var whole := RunFrom(fd.pending, packets, 0, [], fd.written);
      RunFromShift(fd.pending, packets, 0, [], fd.written);
      assert [] + GenRun(fd.pending, packets).crcs == GenRun(fd.pending, packets).crcs;
      ghost var crcs: seq<byte> := [];
      var d: map<seq<byte>, byte> := map[];
      lines := [];
      for i := 0 to |packets|
        // the rest of the loop finishes the same run
        invariant RunFrom(fd.pending, packets, i, crcs, fd.written) == whole
        invariant |crcs| == i && lines == Report(packets, crcs)
        invariant d == BuildMap(packets[..i], crcs)
      {
        var crc := RefCRC(packets[i]);
        if crc.Failure? {
          return Failure(crc.error), lines;
        }
        BuildMapStep(packets, crcs, crc.value);
        assert BuildMap(packets[..i + 1], crcs + [crc.value]) == d[packets[i] := crc.value];
        ReportStep(packets, crcs, crc.value);
        lines := lines + [FormatLine(packets[i], crc.value)];
        d := d[packets[i] := crc.value];
        crcs := crcs + [crc.value];
      }
      assert packets[..|packets|] == packets;
      res := Success(d);
    }
  }
}
