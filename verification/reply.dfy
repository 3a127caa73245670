/**
 The server's reply to a request (section 6 of RFC 1928): version 5, a reply
 code, a reserved zero, address type IPv4, and a bind address and port that
 this server always leaves at 0.0.0.0 port 0.
 */
module Reply {
  import opened Wrappers
  import opened Wire
  import DottedQuad

  const SUCCEEDED: byte := 0x00
  const CONNECTION_REFUSED: byte := 0x05
  const COMMAND_NOT_SUPPORTED: byte := 0x07

  /** The ten reply bytes for code `rep`, as built at main.py lines 84 and 111:
      the four header bytes followed by six zero bytes. */
  function Encode(rep: byte): (b: seq<byte>)
    ensures |b| == 10
    ensures b[..4] == [5, rep, 0, 1]
    // bind address and bind port are zero
    ensures forall i :: 4 <= i < 10 ==> b[i] == 0
  {
    [5, rep, 0, 1] + seq(6, _ => 0)
  }

  /** The success reply as main.py line 116 builds it: the header, then
      `inet_aton('0.0.0.0')`, then `struct.pack("!H", 0)`. */
  function SuccessReply(): (b: seq<byte>)
    ensures b == Encode(SUCCEEDED)
  {
    DottedQuad.ParseZeroAddress();
    [5, SUCCEEDED, 0, 1] + DottedQuad.Parse("0.0.0.0").value + EncodePort(0)
  }

  /** How a client reads a reply: its code, when the bytes have the fixed shape
      this server sends. */
  function Parse(b: seq<byte>): (rep: Option<byte>)
    ensures rep.Some? ==> |b| == 10
  {
    if |b| == 10 && b[0] == 5 && b[2] == 0 && b[3] == 1 && forall i :: 4 <= i < 10 ==> b[i] == 0
    then Some(b[1])
    else None
  }

  lemma ParseEncode(rep: byte)
    ensures Parse(Encode(rep)) == Some(rep)
  {
  }

  /** Every byte string the client accepts as a reply is one the server can send. */
  lemma EncodeParse(b: seq<byte>)
    requires Parse(b).Some?
    ensures Encode(Parse(b).value) == b
  {
  }
}
