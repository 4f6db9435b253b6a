/** Upper-case hexadecimal text, as Python's "{:02X}" format and `" ".join` produce it,
    together with the parser that reads it back. */
module Hex {
  import opened Wrappers
  import opened Bytes

  /** The upper-case hexadecimal digit for `d`, as in "0123456789ABCDEF"[d]. */
  function HexDigit(d: int): (c: char)
    requires 0 <= d < 16
    ensures '0' <= c <= '9' || 'A' <= c <= 'F'
  {
    if d < 10 then ('0' as int + d) as char else ('A' as int + d - 10) as char
  }

  /** The value of one upper-case hexadecimal digit; None for any other character. */
  function DigitValue(c: char): (v: Option<int>)
    ensures v.Some? <==> '0' <= c <= '9' || 'A' <= c <= 'F'
    ensures v.Some? ==> 0 <= v.value < 16 && HexDigit(v.value) == c
  {
    if '0' <= c <= '9' then Some(c as int - '0' as int)
    else if 'A' <= c <= 'F' then Some(c as int - 'A' as int + 10)
    else None
  }

  /** "{:02X}".format(b): exactly two upper-case digits, high nibble first. */
  function HexByte(b: byte): (s: string)
    ensures |s| == 2
  {
    [HexDigit(b / 16), HexDigit(b % 16)]
  }

  /** Each digit reads back as its own value. */
  lemma DigitValueOfDigit(d: int)
    requires 0 <= d < 16
    ensures DigitValue(HexDigit(d)) == Some(d)
  {
  }

  /** Two digits read back as the byte whose high and low nibble they are. */
  lemma ParseTwoDigits(hi: int, lo: int)
    requires 0 <= hi < 16 && 0 <= lo < 16
    ensures ParseHexByte([HexDigit(hi), HexDigit(lo)]) == Some(16 * hi + lo)
  {
    DigitValueOfDigit(hi);
    DigitValueOfDigit(lo);
  }

  /** The two digits of a byte read back as that byte. */
  lemma ParseHexByteOfHexByte(b: byte)
    ensures ParseHexByte(HexByte(b)) == Some(b)
  {
    ParseTwoDigits(b / 16, b % 16);
  }

  /** Reads two hexadecimal digits back into a byte. */
  function ParseHexByte(s: string): (r: Option<byte>)
  {
    if |s| != 2 then None
    else match (DigitValue(s[0]), DigitValue(s[1]))
      case (Some(hi), Some(lo)) => Some(16 * hi + lo)
      case _ => None
  }

  /** `" ".join("{:02X}".format(b) for b in p)`: the bytes of p in hex, one space between each two. */
  function JoinHex(p: seq<byte>): (s: string)
    ensures |s| == if p == [] then 0 else 3 * |p| - 1
  {
    if p == [] then ""
    else if |p| == 1 then HexByte(p[0])
    else HexByte(p[0]) + " " + JoinHex(p[1..])
  }

  /** Reads a space-separated list of two-digit hex bytes; None when the text is not one. */
  function ParseJoined(s: string): (r: Option<seq<byte>>)
    decreases |s|
  {
    if s == [] then Some([])
    else if |s| == 2 then
      match ParseHexByte(s)
      case Some(b) => Some([b])
      case None => None
    else if |s| > 3 && s[2] == ' ' then
      match (ParseHexByte(s[..2]), ParseJoined(s[3..]))
      case (Some(b), Some(rest)) => Some([b] + rest)
      case _ => None
    else None
  }

  /** The joined hex text of a packet reads back as that packet. */
  lemma {:induction false} ParseJoinHex(p: seq<byte>)
    ensures ParseJoined(JoinHex(p)) == Some(p)
  {
    if |p| >= 2 {
      var s := JoinHex(p);
      assert s == HexByte(p[0]) + " " + JoinHex(p[1..]);
      assert s[..2] == HexByte(p[0]);
      assert s[3..] == JoinHex(p[1..]);
      ParseHexByteOfHexByte(p[0]);
      ParseJoinHex(p[1..]);
      assert [p[0]] + p[1..] == p;
    } else if |p| == 1 {
      ParseHexByteOfHexByte(p[0]);
      assert [p[0]] == p;
    }
  }
}
