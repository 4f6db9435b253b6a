# Serial bridge CRC harness

A model of `SerialBridge` (`notes/devices.py`), the host side of a small serial
device that sits on a game controller bus and asks real controller hardware for the
8-bit CRC of a packet. The bridge:

- frames a request as sync marker `0x7E`, data length, reply size, then the data;
- re-sends that frame until one read returns exactly `replyBytes + 1` bytes, and splits
  the reply into a one-byte status ("edges detected") and the payload (`write`);
- wraps a packet in a bus-write command (`3`, then a 16-bit big-endian address) with a
  one-byte reply (`busWrite`);
- reads that byte back as the CRC (`refCRC`, default address `0x8001`);
- queries every packet of a list in turn, prints one line `"<hex bytes> -> <hex CRC>"`
  per packet, and returns a map from packet to CRC (`genVectors`).

The serial port is the class `Serial.Port`. Its device is a fixed script of replies, one
per read call, and every write is appended to a log. `Devices.SerialBridge` holds a
port and has the four methods of the source. Each method is proved against a pure
function of `Protocol` that gives its result, the frames it writes and the replies it
consumes:

| method | function |
|---|---|
| `Write` | `Transact` |
| `BusWrite` | `BusWriteSpec` |
| `RefCRC` | `RefCrcSpec` |
| `GenVectors` | `GenRun`, `Report` and `BuildMap` |

The properties of the protocol are lemmas about those functions. They cover:

- round trips of the frame, the bus-write payload and the report line;
- which error a request ends in, and when;
- that the first reply of full length is the one returned;
- that a short reply is dropped and costs one more frame;
- that the CRC is the second byte of that reply;
- what each report line holds;
- the keys of the map, and that the last occurrence of a packet wins.

Files:

- `wrappers.dfy`: `Option` and `Result`.
- `bytes.dfy`: the `byte` type, `struct.pack(">H")` and `int.from_bytes(..., 'big')`.
- `serial.dfy`: the port.
- `hex.dfy`: `"{:02X}"` and the space-joined hex of a packet, with their parsers.
- `protocol.dfy`: the pure model of every operation, and its lemmas.
- `devices.dfy`: the `SerialBridge` class.

Python's exceptions become the `Protocol.Error` values below. An out-of-range data
length or reply size does not wrap: `struct.pack("BBB", ...)` raises `struct.error`
(`StructError`).

| Python behaviour | `Protocol.Error` |
|---|---|
| `struct.error` | `StructError` |
| `IndexError` from `r[0]` on an empty reply | `IndexError` |

## Model

| member | source | states |
|---|---|---|
| Bytes.FromBytesBig | notes/devices.py:38 | the big-endian value of n bytes is below 256^n, and a single byte reads as itself |
| Bytes.PackU16Big | notes/devices.py:31 | `>H` packing succeeds exactly for 0..0xFFFF and gives two bytes whose big-endian value is the input |
| Serial.Received | notes/devices.py:27 | a read of `size` bytes returns a prefix of the reply of at most `size` bytes; it is full exactly when the reply is long enough, and short only when it is the whole reply |
| Serial.Port.constructor | notes/devices.py:17 | the port keeps the device, baud rate and timeout it was opened with; nothing written yet |
| Serial.Port.Write | notes/devices.py:26 | the bytes are appended to the written log; the replies are untouched |
| Serial.Port.Read | notes/devices.py:27 | the next reply is consumed and cut to `size` bytes; an exhausted device times out with no bytes |
| Devices.SerialBridge.constructor | notes/devices.py:16-17 | the bridge opens a fresh port on `dev` (by default `/dev/ttyUSB0`) at 38400 baud with a one-second timeout |
| Protocol.EncodeFrame | notes/devices.py:26 | the frame exists exactly when the length and the reply size each fit in one unsigned byte; it is 0x7E, length, reply size, then the data |
| Protocol.EncodeThenDecodeFrame | notes/devices.py:26 | the device decodes every frame back to the data and reply size it was built from |
| Protocol.DecodeThenEncodeFrame | notes/devices.py:26 | every frame the device accepts is the encoding of what it decodes to |
| Protocol.FrameExample | notes/devices.py:26 | data 01 02 03 with one reply byte is framed as 7E 03 01 01 02 03 |
| Protocol.SplitReply | notes/devices.py:28 | the split fails exactly on an empty reply; otherwise a one-byte status plus the payload concatenate back to the reply |
| Protocol.FirstFull | notes/devices.py:25-27 | the index of the first reply long enough to fill the read: every earlier reply is short, and the one at the index is not |
| Protocol.Retry | notes/devices.py:24-27 | the loop writes no more frames than there are replies, and a reply that ends it has exactly the size read |
| Protocol.Transact | notes/devices.py:19-28 | one request writes at most one frame per scripted reply |
| Protocol.TransactRepeatsFrame | notes/devices.py:25-26 | every attempt writes the same frame, which exists whenever anything was written |
| Protocol.TransactErrors | notes/devices.py:24-28 | an IndexError occurs exactly when replyBytes is -1; a struct.error exactly when it is not and the frame does not pack; no answer exactly when the frame packs and no reply fills the read |
| Protocol.TransactReturnsFirstFullReply | notes/devices.py:24-28 | a request succeeds exactly when the frame packs and some reply fills the read; it then made FirstFull + 1 attempts, and returns a one-byte status and a replyBytes-byte payload that concatenate to the front of that reply; with no answer, every reply cost one attempt |
| Protocol.RetryDropsShortReply | notes/devices.py:25-27 | a reply shorter than the read costs one more copy of the frame; the loop ends as it would without it |
| Protocol.TransactDropsShortReply | notes/devices.py:25-27 | the same for a whole request: same outcome, plus one frame in front |
| Devices.SerialBridge.Write | notes/devices.py:19-28 | with `replyBytes` 0 by default, the result, the frames appended to the log and the replies consumed are those of `Transact` on the device's pending replies |
| Protocol.BusWritePayload | notes/devices.py:31 | the payload exists exactly for a 16-bit address; it is command 3, the address high byte first, then the packet |
| Protocol.EncodeThenDecodeBusWrite | notes/devices.py:31 | the bus side decodes every payload back to its packet and address |
| Protocol.DecodeThenEncodeBusWrite | notes/devices.py:31 | every payload the bus side accepts is the encoding of what it decodes to |
| Protocol.BusWriteExample | notes/devices.py:31 | packet AA at 0x8001 becomes payload 03 80 01 AA and frame 7E 04 01 03 80 01 AA |
| Protocol.BusWriteSpec | notes/devices.py:30-31 | one bus write writes at most one frame per scripted reply |
| Protocol.BusWriteReply | notes/devices.py:30-31 | struct.error exactly when the packet is over 252 bytes or the address is not 16-bit; success exactly when, in addition, some reply has two bytes; a success returns the first two bytes of the first such reply; every frame sent is 7E, 3 + packet length, 1, then the payload |
| Devices.SerialBridge.BusWrite | notes/devices.py:30-31 | result, log and consumed replies are those of `BusWriteSpec` |
| Protocol.RefCrcSpec | notes/devices.py:33-38 | one CRC query writes at most one frame per scripted reply |
| Protocol.RefCrcOfReply | notes/devices.py:33-38 | the query writes what the bus write writes and fails with the same error; it succeeds exactly when the bus write does; the CRC is the second byte of the first reply of at least two bytes |
| Protocol.CrcExample | notes/devices.py:33-38 | a device answering 00 5A reports CRC 0x5A for any packet that fits |
| Devices.SerialBridge.RefCRC | notes/devices.py:33-38 | with `address` 0x8001 by default, the result, log and consumed replies are those of `RefCrcSpec` |
| Hex.HexDigit | notes/devices.py:45 | a value 0..15 is shown as one of 0-9, A-F |
| Hex.DigitValue | notes/devices.py:45 | reads exactly the characters 0-9 and A-F, as values 0..15, inverse to HexDigit |
| Hex.DigitValueOfDigit | notes/devices.py:45 | every hex digit reads back as its value |
| Hex.ParseTwoDigits | notes/devices.py:45 | two hex digits read back as 16 * high + low |
| Hex.HexByte | notes/devices.py:45 | `{:02X}` of a byte is two characters |
| Hex.ParseHexByteOfHexByte | notes/devices.py:45 | `{:02X}` of every byte reads back as that byte |
| Hex.JoinHex | notes/devices.py:45 | the space-joined hex of n bytes is 3n - 1 characters long, or empty for no bytes |
| Hex.ParseJoinHex | notes/devices.py:45 | the space-joined hex of every packet reads back as that packet |
| Protocol.FormatLine | notes/devices.py:45 | a line is six characters longer than the packet's hex; that it reads back as packet and CRC is `FormatLineRoundTrip` |
| Protocol.FormatLineRoundTrip | notes/devices.py:45 | every report line reads back as the packet and the CRC it was made from |
| Protocol.FormatLineInjective | notes/devices.py:45 | two lines are equal only when their packets and their CRCs are |
| Protocol.LineExample | notes/devices.py:45 | packet 01 with CRC 0x10 prints "01 -> 10" |
| Protocol.Report | notes/devices.py:43-45 | one line per CRC obtained |
| Protocol.ReportLines | notes/devices.py:43-45 | line j is packet j with CRC j |
| Protocol.BuildMap | notes/devices.py:42-46 | filling the map from `{}` with each packet's CRC in order leaves exactly the queried packets as keys |
| Protocol.BuildMapLastWins | notes/devices.py:46 | a packet's entry is the CRC of its last occurrence |
| Protocol.RunFrom | notes/devices.py:43-46 | the rest of the loop obtains at most one CRC per remaining packet, and stops early exactly when an error occurs |
| Protocol.RunFromShift | notes/devices.py:43-44 | the CRCs and frames of the earlier queries only stand in front of those of the rest of the loop |
| Protocol.RunFromLeft | notes/devices.py:43-44 | the replies left unread are the script less one reply per frame written |
| Protocol.GenRun | notes/devices.py:40-47 | at most one CRC per packet, all of them exactly when no error occurred; the unread replies are the script less one per frame written |
| Devices.SerialBridge.GenVectors | notes/devices.py:40-47 | the log, the unread replies and the printed lines are those of `GenRun` and `Report`; the result is that run's error, or the map `BuildMap` builds from every packet and its CRC |

## Left out

- `notes/read-sram.py` is not part of this model. It is a script driving a bus class whose code is not available here.
- Opening the serial port, and the operating-system errors of doing so, are not modelled. The port is a constructor argument: the device path and a script of replies.
- Timing is not modelled. A read that times out with fewer bytes is a scripted reply shorter than the read.
- Bytes the device sends beyond a read's size are dropped from the model; a real port would return them to the next read.
- Devices.SerialBridge.Write: the source re-sends the frame for ever while the device stays silent; the model stops when the script of replies runs out, with `Unanswered`.
- Devices.SerialBridge.GenVectors: printing to standard output is modelled as the returned `lines`. Lines printed before an error are returned along with it.
- The CRC algorithm itself is not modelled. It is computed by the controller hardware; the model takes whatever byte the device returns.
- Python's dynamic types are narrowed: data and packets are byte sequences, and the map key `tuple(packet)` is the packet itself.
- The doc comment of `refCRC` says the address has no effect on the CRC. That is an observation about the hardware and is not stated: the model's CRC is whatever the device returns.
