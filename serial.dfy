/** The serial port the bridge talks through, as an abstract reply source.

    A real port returns whatever the device sent before the read timeout; here the
    replies are fixed in advance as a script, one reply per read call, and every
    frame written is appended to a log. */
module Serial {
  import opened Bytes

  /** What `read(size)` returns when the device's reply to this attempt is `reply`:
      at most `size` bytes, taken from the front of the reply. */
  function Received(reply: seq<byte>, size: nat): (r: seq<byte>)
    ensures |r| <= size && r <= reply
    ensures |r| == size <==> |reply| >= size
    ensures |r| < size ==> r == reply
  {
    if |reply| <= size then reply else reply[..size]
  }

  class Port {
    /** The settings the port was opened with. */
    const device: string
    const baudrate: int
    const timeout: int
    /** Every byte string written to the port, oldest first. */
    var written: seq<seq<byte>>
    /** The replies the device will give, one per future read call. */
    var pending: seq<seq<byte>>

    constructor (device: string, baudrate: int, timeout: int, replies: seq<seq<byte>>)
      ensures this.device == device && this.baudrate == baudrate && this.timeout == timeout
      ensures written == [] && pending == replies
    {
      this.device := device;
      this.baudrate := baudrate;
      this.timeout := timeout;
      written := [];
      pending := replies;
    }

    method Write(bytes: seq<byte>)
      modifies this
      ensures written == old(written) + [bytes]
      ensures pending == old(pending)
    {
      written := written + [bytes];
    }

    /** Reads up to `size` bytes; a device with nothing left to say times out with no bytes. */
    method Read(size: nat) returns (r: seq<byte>)
      modifies this
      ensures old(pending) == [] ==> r == [] && pending == []
      ensures old(pending) != [] ==> r == Received(old(pending)[0], size) && pending == old(pending)[1..]
      ensures written == old(written)
    {
      if pending == [] {
        r := [];
      } else {
        r := Received(pending[0], size);
        pending := pending[1..];
      }
    }
  }
}
