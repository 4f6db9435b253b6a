/** The serial-bridge protocol of `SerialBridge` as pure functions: the request frame,
    the reply split, the bus-write payload, the CRC decode, the report line and the
    packet-to-CRC map, and the outcome of each request against a script of replies. */
module Protocol {
  import opened Wrappers
  import opened Bytes
  import opened Hex
  import opened Serial

  /** First byte of every request frame. */
  const SyncMarker: byte := 0x7E
  /** Command byte of a controller-bus write. */
  const BusWriteCommand: byte := 3
  /** Bus address `refCRC` writes to unless told otherwise. */
  const DefaultAddress: int := 0x8001
  /** A bus write is answered by a status byte and one CRC byte. */
  const CrcReplyBytes: int := 1

  /** The exceptions a request can end in. `Unanswered` is not raised by the bridge:
      it stands for a device that never gives a reply of the right length, against
      which the bridge would go on re-sending for ever. */
  datatype Error =
    | StructError   // a field does not fit the unsigned width `struct.pack` was asked for
    | IndexError    // `r[0]` on an empty reply
    | Unanswered    // the script of replies ran out before a reply of the right length

  // ---------------------------------------------------------------------------
  // Request frame

  /** `struct.pack("BBB", 0x7E, len(data), replyBytes) + data`; `struct.error` when the
      length or the reply size does not fit in one unsigned byte (nothing wraps). */
  function EncodeFrame(data: seq<byte>, replyBytes: int): (r: Option<seq<byte>>)
    ensures r.Some? <==> |data| <= 255 && 0 <= replyBytes <= 255
    ensures r.Some? ==> |r.value| == 3 + |data|
    ensures r.Some? ==> r.value[0] == SyncMarker && r.value[1] == |data| && r.value[2] == replyBytes
    ensures r.Some? ==> r.value[3..] == data
  {
    if |data| <= 255 && 0 <= replyBytes <= 255 then
      Some([SyncMarker, |data|, replyBytes] + data)
    else
      None
  }

  /** How the bridge device reads a request: sync marker, data length, reply size, data. */
  function DecodeFrame(f: seq<byte>): (r: Option<(seq<byte>, byte)>)
  {
    if |f| >= 3 && f[0] == SyncMarker && |f| == 3 + f[1] as int then Some((f[3..], f[2])) else None
  }

  /** The device reads every frame back as the data and reply size it was built from. */
  lemma EncodeThenDecodeFrame(data: seq<byte>, replyBytes: int)
    requires EncodeFrame(data, replyBytes).Some?
    ensures DecodeFrame(EncodeFrame(data, replyBytes).value) == Some((data, replyBytes))
  {
  }

  /** Every frame the device accepts is the encoding of what it decodes to. */
  lemma DecodeThenEncodeFrame(f: seq<byte>)
    requires DecodeFrame(f).Some?
    ensures EncodeFrame(DecodeFrame(f).value.0, DecodeFrame(f).value.1) == Some(f)
  {
    assert [f[0], f[1], f[2]] + f[3..] == f;
  }

  // ---------------------------------------------------------------------------
  // Reply

  /** `(bytes([r[0]]), r[1:])`: the status byte ("edges detected") and the payload;
      `IndexError` (None) on an empty reply. */
  function SplitReply(r: seq<byte>): (s: Option<(seq<byte>, seq<byte>)>)
    ensures s.Some? <==> r != []
    ensures s.Some? ==> |s.value.0| == 1 && s.value.0 + s.value.1 == r
  {
    if r == [] then None else Some(([r[0]], r[1..]))
  }

  /** The index of the first scripted reply that holds at least `size` bytes, so that
      a read of `size` bytes returns exactly `size`; `|script|` when there is none. */
  function FirstFull(script: seq<seq<byte>>, size: nat): (k: nat)
    ensures k <= |script|
    ensures forall i :: 0 <= i < k ==> |script[i]| < size
    ensures k < |script| ==> |script[k]| >= size
  {
    if script == [] then 0
    else if |script[0]| >= size then 0
    else 1 + FirstFull(script[1..], size)
  }

  /** `k` copies of one frame. */
  function Repeat(frame: seq<byte>, k: nat): (s: seq<seq<byte>>)
    ensures |s| == k && forall i :: 0 <= i < k ==> s[i] == frame
  {
    seq(k, _ => frame)
  }

  /** What the attempts of one request did: the reply that ended them, if any, and
      the frames written, one per attempt. */
  datatype Attempts = Attempts(reply: Option<seq<byte>>, sent: seq<seq<byte>>)

  /** The retry loop of `write` once its frame is built: the frame is written and
      `size` bytes are read, again and again while the read comes back short. It ends
      on the first reply that fills the read, after one frame per reply up to and
      including it; when no reply does, every reply has cost one frame. */
  function Retry(script: seq<seq<byte>>, frame: seq<byte>, size: nat): (a: Attempts)
    ensures |a.sent| <= |script|
    ensures a.reply.Some? ==> |a.reply.value| == size
  {
    var k := FirstFull(script, size);
    if k < |script| then Attempts(Some(Received(script[k], size)), Repeat(frame, k + 1))
    else Attempts(None, Repeat(frame, |script|))
  }

  /** What one request did: how it ended, and the frames it wrote (one per read). */
  datatype Transaction = Transaction(outcome: Result<(seq<byte>, seq<byte>), Error>, sent: seq<seq<byte>>)

  /** `SerialBridge.write(data, replyBytes)` against a device that gives the replies of
      `script` in turn: the frame is re-sent until one read returns exactly
      `replyBytes + 1` bytes, which are split into status and payload. */
  function Transact(script: seq<seq<byte>>, data: seq<byte>, replyBytes: int): (t: Transaction)
    ensures |t.sent| <= |script|
  {
    if replyBytes + 1 == 0 then
      // the loop never runs, and r stays empty
      Transaction(Failure(IndexError), [])
    else match EncodeFrame(data, replyBytes)
      case None => Transaction(Failure(StructError), [])
      case Some(frame) =>
        var a := Retry(script, frame, replyBytes + 1);
        match a.reply
        case None => Transaction(Failure(Unanswered), a.sent)
        case Some(r) => Transaction(Success(SplitReply(r).value), a.sent)
  }

  /** Every attempt of one request writes the same frame. */
  lemma TransactRepeatsFrame(script: seq<seq<byte>>, data: seq<byte>, replyBytes: int)
    ensures Transact(script, data, replyBytes).sent != [] ==> EncodeFrame(data, replyBytes).Some?
    ensures forall i :: 0 <= i < |Transact(script, data, replyBytes).sent| ==>
              Transact(script, data, replyBytes).sent[i] == EncodeFrame(data, replyBytes).value
  {
  }

  /** Which error a request ends in, and when. */
  lemma TransactErrors(script: seq<seq<byte>>, data: seq<byte>, replyBytes: int)
    ensures var t := Transact(script, data, replyBytes);
            (t.outcome == Failure(IndexError) <==> replyBytes == -1) &&
            (t.outcome == Failure(StructError) <==> replyBytes != -1 && EncodeFrame(data, replyBytes).None?) &&
            (t.outcome == Failure(Unanswered) <==>
               EncodeFrame(data, replyBytes).Some? && FirstFull(script, replyBytes + 1) == |script|)
  {
  }

  /** A request returns the first reply that fills the read of `replyBytes + 1` bytes,
      split into a one-byte status and a payload of exactly `replyBytes` bytes; every
      reply before it was shorter, and was dropped. A device that never fills the read
      uses up every attempt. */
  lemma TransactReturnsFirstFullReply(script: seq<seq<byte>>, data: seq<byte>, replyBytes: int)
    ensures var t := Transact(script, data, replyBytes);
            t.outcome.Success? <==>
              EncodeFrame(data, replyBytes).Some? && FirstFull(script, replyBytes + 1) < |script|
    ensures var t := Transact(script, data, replyBytes);
            t.outcome.Success? ==>
              |t.sent| == FirstFull(script, replyBytes + 1) + 1 &&
              |t.outcome.value.0| == 1 && |t.outcome.value.1| == replyBytes &&
              |script[|t.sent| - 1]| >= replyBytes + 1 &&
              t.outcome.value.0 + t.outcome.value.1 == script[|t.sent| - 1][..replyBytes + 1]
    ensures var t := Transact(script, data, replyBytes);
            t.outcome == Failure(Unanswered) ==> |t.sent| == |script|
  {
  }

  /** A reply that is too short is thrown away: it costs one more frame and changes nothing else. */
  lemma RetryDropsShortReply(reply: seq<byte>, script: seq<seq<byte>>, frame: seq<byte>, size: nat)
    requires |reply| < size
    ensures Retry([reply] + script, frame, size) ==
            Attempts(Retry(script, frame, size).reply, [frame] + Retry(script, frame, size).sent)
  {
    var s := [reply] + script;
    assert s[1..] == script;
    var k := FirstFull(script, size);
    assert FirstFull(s, size) == k + 1;
    if k < |script| {
      assert s[k + 1] == script[k];
    }
    assert Repeat(frame, k + 2) == [frame] + Repeat(frame, k + 1);
    assert Repeat(frame, |s|) == [frame] + Repeat(frame, |script|);
  }

  /** The same, for a whole request. */
  lemma TransactDropsShortReply(reply: seq<byte>, script: seq<seq<byte>>, data: seq<byte>, replyBytes: int)
    requires EncodeFrame(data, replyBytes).Some? && |reply| < replyBytes + 1
    ensures Transact([reply] + script, data, replyBytes).outcome == Transact(script, data, replyBytes).outcome
    ensures Transact([reply] + script, data, replyBytes).sent ==
              [EncodeFrame(data, replyBytes).value] + Transact(script, data, replyBytes).sent
  {
    RetryDropsShortReply(reply, script, EncodeFrame(data, replyBytes).value, replyBytes + 1);
  }

  // ---------------------------------------------------------------------------
  // Bus write

  /** `struct.pack(">BH", 3, address) + packet`: the bus-write command, the address
      high byte first, then the packet; `struct.error` when the address is not 16-bit. */
  function BusWritePayload(packet: seq<byte>, address: int): (r: Option<seq<byte>>)
    ensures r.Some? <==> 0 <= address <= 0xFFFF
    ensures r.Some? ==> |r.value| == 3 + |packet| && r.value[0] == BusWriteCommand
    ensures r.Some? ==> FromBytesBig(r.value[1..3]) == address && r.value[3..] == packet
  {
    match PackU16Big(address)
    case None => None
    case Some(a) =>
      var d := [BusWriteCommand] + a + packet;
      assert d[1..3] == a;
      Some(d)
  }

  /** How the bus side reads a bus-write payload: command 3, 16-bit address, packet. */
  function DecodeBusWrite(d: seq<byte>): (r: Option<(seq<byte>, int)>)
  {
    if |d| >= 3 && d[0] == BusWriteCommand then Some((d[3..], FromBytesBig(d[1..3]))) else None
  }

  /** The bus side reads every payload back as the packet and address it was built from. */
  lemma EncodeThenDecodeBusWrite(packet: seq<byte>, address: int)
    requires BusWritePayload(packet, address).Some?
    ensures DecodeBusWrite(BusWritePayload(packet, address).value) == Some((packet, address))
  {
  }

  /** Every payload the bus side accepts is the encoding of what it decodes to. */
  lemma DecodeThenEncodeBusWrite(d: seq<byte>)
    requires DecodeBusWrite(d).Some?
    ensures BusWritePayload(DecodeBusWrite(d).value.0, DecodeBusWrite(d).value.1) == Some(d)
  {
    var a := DecodeBusWrite(d).value.1;
    var hi: int := d[1];
    var lo: int := d[2];
    assert d[1..3][..1] == [hi];
    assert a == 256 * hi + lo;
    assert PackU16Big(a) == Some([hi, lo]);
    assert [d[0]] + [hi, lo] + d[3..] == d;
  }

  /** `SerialBridge.busWrite(packet, address)`: one request with a one-byte reply payload. */
  function BusWriteSpec(script: seq<seq<byte>>, packet: seq<byte>, address: int): (t: Transaction)
    ensures |t.sent| <= |script|
  {
    match BusWritePayload(packet, address)
    case None => Transaction(Failure(StructError), [])
    case Some(d) => Transact(script, d, CrcReplyBytes)
  }

  /** A bus write fails to pack unless the packet leaves room for the three payload
      header bytes in a 255-byte frame and the address is 16-bit; otherwise it returns
      the first two bytes of the first reply that has at least two, after writing the
      same frame once per attempt. */
  lemma BusWriteReply(script: seq<seq<byte>>, packet: seq<byte>, address: int)
    ensures var t := BusWriteSpec(script, packet, address);
            t.outcome == Failure(StructError) <==> !(|packet| <= 252 && 0 <= address <= 0xFFFF)
    ensures var t := BusWriteSpec(script, packet, address);
            t.outcome.Success? <==> |packet| <= 252 && 0 <= address <= 0xFFFF && FirstFull(script, 2) < |script|
    ensures var t := BusWriteSpec(script, packet, address);
            t.outcome.Success? ==>
              |t.sent| == FirstFull(script, 2) + 1 &&
              |t.outcome.value.0| == 1 && |t.outcome.value.1| == 1 &&
              |script[|t.sent| - 1]| >= 2 &&
              t.outcome.value.0 + t.outcome.value.1 == script[|t.sent| - 1][..2]
    ensures forall i :: 0 <= i < |BusWriteSpec(script, packet, address).sent| ==>
              BusWritePayload(packet, address).Some? &&
              BusWriteSpec(script, packet, address).sent[i] ==
                [SyncMarker, 3 + |packet|, CrcReplyBytes] + BusWritePayload(packet, address).value
  {
    var payload := BusWritePayload(packet, address);
    if payload.Some? {
      TransactRepeatsFrame(script, payload.value, CrcReplyBytes);
      TransactErrors(script, payload.value, CrcReplyBytes);
      TransactReturnsFirstFullReply(script, payload.value, CrcReplyBytes);
    }
  }

  // ---------------------------------------------------------------------------
  // Reference CRC

  /** What one CRC query did: the CRC or the error, and the frames it wrote. */
  datatype CrcQuery = CrcQuery(crc: Result<byte, Error>, sent: seq<seq<byte>>)

  /** `SerialBridge.refCRC(packet, address)`: the payload of the bus-write reply,
      read as a big-endian unsigned integer; it is one byte, so the CRC is 8-bit. */
  function RefCrcSpec(script: seq<seq<byte>>, packet: seq<byte>, address: int): (q: CrcQuery)
    ensures |q.sent| <= |script|
  {
    var t := BusWriteSpec(script, packet, address);
    match t.outcome
    case Failure(e) => CrcQuery(Failure(e), t.sent)
    case Success(reply) =>
      BusWriteReply(script, packet, address);
      CrcQuery(Success(FromBytesBig(reply.1)), t.sent)
  }

  /** The CRC is the second byte (the one payload byte) of the first reply that has
      at least two bytes; the query fails exactly when the bus write does. */
  lemma RefCrcOfReply(script: seq<seq<byte>>, packet: seq<byte>, address: int)
    ensures var q := RefCrcSpec(script, packet, address);
            q.sent == BusWriteSpec(script, packet, address).sent &&
            (q.crc.Success? <==> |packet| <= 252 && 0 <= address <= 0xFFFF && FirstFull(script, 2) < |script|)
    ensures var q := RefCrcSpec(script, packet, address);
            q.crc.Success? ==>
              |q.sent| == FirstFull(script, 2) + 1 && |script[|q.sent| - 1]| >= 2 &&
              q.crc.value == script[|q.sent| - 1][1]
    ensures var q := RefCrcSpec(script, packet, address);
            q.crc.Failure? ==> BusWriteSpec(script, packet, address).outcome == Failure(q.crc.error)
  {
    var t := BusWriteSpec(script, packet, address);
    BusWriteReply(script, packet, address);
    if t.outcome.Success? {
      var reply := t.outcome.value;
      var last := script[|t.sent| - 1];
      assert reply.0 + reply.1 == last[..2];
      assert reply.1 == [last[1]];
    }
  }

  // ---------------------------------------------------------------------------
  // Test vectors

  /** One report line: the packet in hex, " -> ", the CRC in hex. */
  function FormatLine(packet: seq<byte>, crc: byte): (line: string)
    ensures |line| == |JoinHex(packet)| + 6
  {
    JoinHex(packet) + " -> " + HexByte(crc)
  }

  /** How a reader of the report splits a line back into packet and CRC. */
  function ParseLine(line: string): (r: Option<(seq<byte>, byte)>)
  {
    if |line| >= 6 && line[|line| - 6..|line| - 2] == " -> " then
      match (ParseJoined(line[..|line| - 6]), ParseHexByte(line[|line| - 2..]))
      case (Some(p), Some(c)) => Some((p, c))
      case _ => None
    else None
  }

  /** Every report line reads back as the packet and the CRC it was made from. */
  lemma FormatLineRoundTrip(packet: seq<byte>, crc: byte)
    ensures ParseLine(FormatLine(packet, crc)) == Some((packet, crc))
  {
    var line := FormatLine(packet, crc);
    assert line[..|line| - 6] == JoinHex(packet);
    assert line[|line| - 6..|line| - 2] == " -> ";
    assert line[|line| - 2..] == HexByte(crc);
    ParseHexByteOfHexByte(crc);
    ParseJoinHex(packet);
  }

  /** Two report lines are equal only when their packets and their CRCs are. */
  lemma FormatLineInjective(p1: seq<byte>, c1: byte, p2: seq<byte>, c2: byte)
    requires FormatLine(p1, c1) == FormatLine(p2, c2)
    ensures p1 == p2 && c1 == c2
  {
    FormatLineRoundTrip(p1, c1);
    FormatLineRoundTrip(p2, c2);
  }

  /** The lines `genVectors` prints, one per packet whose CRC it obtained, in order. */
  function Report(packets: seq<seq<byte>>, crcs: seq<byte>): (lines: seq<string>)
    requires |crcs| <= |packets|
    ensures |lines| == |crcs|
    decreases |crcs|
  {
    if crcs == [] then []
    else
      var n := |crcs| - 1;
      Report(packets, crcs[..n]) + [FormatLine(packets[n], crcs[n])]
  }

  /** One more CRC prints one more line. */
  lemma ReportStep(packets: seq<seq<byte>>, crcs: seq<byte>, crc: byte)
    requires |crcs| < |packets|
    ensures Report(packets, crcs + [crc]) == Report(packets, crcs) + [FormatLine(packets[|crcs|], crc)]
  {
    assert (crcs + [crc])[..|crcs|] == crcs;
  }

  /** Line `j` of the report is packet `j` with its CRC. */
  lemma {:induction false} ReportLines(packets: seq<seq<byte>>, crcs: seq<byte>)
    requires |crcs| <= |packets|
    ensures forall j :: 0 <= j < |crcs| ==> Report(packets, crcs)[j] == FormatLine(packets[j], crcs[j])
    decreases |crcs|
  {
    if crcs != [] {
      var n := |crcs| - 1;
      ReportLines(packets, crcs[..n]);
      forall j | 0 <= j < n
        ensures Report(packets, crcs)[j] == FormatLine(packets[j], crcs[j])
      {
        assert Report(packets, crcs)[j] == Report(packets, crcs[..n])[j];
        assert crcs[..n][j] == crcs[j];
      }
    }
  }

  /** `d[tuple(packet)] = crc` for each packet in order, starting from `{}`: the keys
      are exactly the packets queried. */
  function BuildMap(packets: seq<seq<byte>>, crcs: seq<byte>): (d: map<seq<byte>, byte>)
    requires |crcs| == |packets|
    ensures forall p :: p in d <==> p in packets
    decreases |packets|
  {
    if packets == [] then map[]
    else
      var n := |packets| - 1;
      assert packets == packets[..n] + [packets[n]];
      BuildMap(packets[..n], crcs[..n])[packets[n] := crcs[n]]
  }

  /** Storing one more packet's CRC updates the map at that packet. */
  lemma BuildMapStep(packets: seq<seq<byte>>, crcs: seq<byte>, crc: byte)
    requires |crcs| < |packets|
    ensures BuildMap(packets[..|crcs| + 1], crcs + [crc]) ==
              BuildMap(packets[..|crcs|], crcs)[packets[|crcs|] := crc]
  {
    var n := |crcs|;
    var p := packets[..n + 1];
    var c := crcs + [crc];
    assert p[..n] == packets[..n] && p[n] == packets[n];
    assert c[..n] == crcs && c[n] == crc;
    assert BuildMap(p, c) == BuildMap(p[..n], c[..n])[p[n] := c[n]];
  }

  /** A packet's entry holds the CRC of its last occurrence: later duplicates overwrite. */
  lemma {:induction false} BuildMapLastWins(packets: seq<seq<byte>>, crcs: seq<byte>, k: nat)
    requires |crcs| == |packets| && k < |packets|
    requires forall j :: k < j < |packets| ==> packets[j] != packets[k]
    ensures packets[k] in BuildMap(packets, crcs) && BuildMap(packets, crcs)[packets[k]] == crcs[k]
    decreases |packets|
  {
    var n := |packets| - 1;
    if k < n {
      assert packets[..n][k] == packets[k];
      BuildMapLastWins(packets[..n], crcs[..n], k);
    }
  }

  /** What `genVectors` did: the CRCs obtained, in packet order, the error it stopped
      at (if any), every frame written and the replies left unread. */
  datatype Run = Run(crcs: seq<byte>, failure: Option<Error>, sent: seq<seq<byte>>, left: seq<seq<byte>>)

  /** The loop of `SerialBridge.genVectors(packets)` from packet `i` on, once the
      queries before it obtained `crcs` and wrote `sent`, leaving `script` of the
      device's replies: one `refCRC(packet)` per packet, in order, stopping at the
      first error. */
  function RunFrom(script: seq<seq<byte>>, packets: seq<seq<byte>>, i: nat, crcs: seq<byte>, sent: seq<seq<byte>>): (r: Run)
    requires i <= |packets|
    ensures |crcs| <= |r.crcs| <= |crcs| + |packets| - i
    ensures r.failure.None? <==> |r.crcs| == |crcs| + |packets| - i
    decreases |packets| - i
  {
    if i == |packets| then Run(crcs, None, sent, script)
    else
      var q := RefCrcSpec(script, packets[i], DefaultAddress);
      match q.crc
      case Failure(e) => Run(crcs, Some(e), sent + q.sent, script[|q.sent|..])
      case Success(c) => RunFrom(script[|q.sent|..], packets, i + 1, crcs + [c], sent + q.sent)
  }

  /** Putting `crcs` and `sent` in front of a run that starts with `c` and `qs`. */
  lemma PrependRun(crcs: seq<byte>, sent: seq<seq<byte>>, c: seq<byte>, qs: seq<seq<byte>>, r: Run)
    ensures Run(crcs + c + r.crcs, r.failure, sent + qs + r.sent, r.left) ==
            Run(crcs + ([] + c + r.crcs), r.failure, sent + ([] + qs + r.sent), r.left)
  {
    assert [] + c == c && [] + qs == qs;
  }

  /** What the earlier queries obtained and wrote only stands in front of what the
      rest of the loop obtains and writes. */
  lemma {:induction false} RunFromShift(script: seq<seq<byte>>, packets: seq<seq<byte>>, i: nat, crcs: seq<byte>, sent: seq<seq<byte>>)
    requires i <= |packets|
    ensures var r := RunFrom(script, packets, i, [], []);
            RunFrom(script, packets, i, crcs, sent) == Run(crcs + r.crcs, r.failure, sent + r.sent, r.left)
    decreases |packets| - i
  {
    if i < |packets| {
      var q := RefCrcSpec(script, packets[i], DefaultAddress);
      var rest := script[|q.sent|..];
      match q.crc
      case Failure(e) =>
        assert crcs + [] == crcs && [] + q.sent == q.sent;
      case Success(c) =>
        var r := RunFrom(rest, packets, i + 1, [], []);
        RunFromShift(rest, packets, i + 1, crcs + [c], sent + q.sent);
        RunFromShift(rest, packets, i + 1, [] + [c], [] + q.sent);
        assert RunFrom(script, packets, i, crcs, sent) == RunFrom(rest, packets, i + 1, crcs + [c], sent + q.sent);
        assert RunFrom(script, packets, i, [], []) == RunFrom(rest, packets, i + 1, [] + [c], [] + q.sent);
        PrependRun(crcs, sent, [c], q.sent, r);
    } else {
      assert crcs + [] == crcs && sent + [] == sent;
    }
  }

  /** Each query reads one reply per frame it writes, so the replies left unread are
      the script less one reply per frame written. */
  lemma {:induction false} RunFromLeft(script: seq<seq<byte>>, packets: seq<seq<byte>>, i: nat, crcs: seq<byte>, sent: seq<seq<byte>>)
    requires i <= |packets|
    ensures var r := RunFrom(script, packets, i, crcs, sent);
            |sent| <= |r.sent| <= |sent| + |script| && r.left == script[|r.sent| - |sent|..]
    decreases |packets| - i
  {
    if i < |packets| {
      var q := RefCrcSpec(script, packets[i], DefaultAddress);
      if q.crc.Success? {
        var rest := script[|q.sent|..];
        RunFromLeft(rest, packets, i + 1, crcs + [q.crc.value], sent + q.sent);
        var r := RunFrom(script, packets, i, crcs, sent);
        assert rest[|r.sent| - |sent + q.sent|..] == script[|r.sent| - |sent|..];
      }
    }
  }

  /** `SerialBridge.genVectors(packets)`: the loop over every packet from the start. */
  function GenRun(script: seq<seq<byte>>, packets: seq<seq<byte>>): (r: Run)
    ensures |r.crcs| <= |packets|
    ensures r.failure.None? <==> |r.crcs| == |packets|
    ensures |r.sent| <= |script| && r.left == script[|r.sent|..]
  {
    RunFromLeft(script, packets, 0, [], []);
    RunFrom(script, packets, 0, [], [])
  }

  // ---------------------------------------------------------------------------
  // Worked examples of the wire format

  lemma FrameExample()
    ensures EncodeFrame([0x01, 0x02, 0x03], 1) == Some([0x7E, 0x03, 0x01, 0x01, 0x02, 0x03])
  {
    assert [SyncMarker, 3, 1] + [0x01, 0x02, 0x03] == [0x7E, 0x03, 0x01, 0x01, 0x02, 0x03];
  }

  lemma BusWriteExample()
    ensures BusWritePayload([0xAA], 0x8001) == Some([0x03, 0x80, 0x01, 0xAA])
    ensures EncodeFrame([0x03, 0x80, 0x01, 0xAA], 1) == Some([0x7E, 0x04, 0x01, 0x03, 0x80, 0x01, 0xAA])
  {
    assert PackU16Big(0x8001) == Some([0x80, 0x01]);
    assert [BusWriteCommand] + [0x80, 0x01] + [0xAA] == [0x03, 0x80, 0x01, 0xAA];
    assert [SyncMarker, 4, 1] + [0x03, 0x80, 0x01, 0xAA] == [0x7E, 0x04, 0x01, 0x03, 0x80, 0x01, 0xAA];
  }

  /** A device that answers 00 5A reports CRC 0x5A, whatever the packet. */
  lemma CrcExample(packet: seq<byte>, later: seq<seq<byte>>)
    requires |packet| <= 252
    ensures RefCrcSpec([[0x00, 0x5A]] + later, packet, DefaultAddress).crc == Success(0x5A)
  {
  }

  lemma LineExample()
    ensures FormatLine([0x01], 0x10) == "01 -> 10"
  {
  }
}
