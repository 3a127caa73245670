/**
 One client connection of the SOCKS5 server (`handle_client`, main.py lines 60-126):
 method negotiation, the request, the destination, the dial and the reply,
 as a function from the bytes the client sends to the bytes the server writes.

 The dial (`asyncio.open_connection`) and UTF-8 decoding of a domain name are
 calls into code outside the model; they are the parameters in `Env`.
 */
module Handshake {
  import opened Wire
  import opened Address
  import Reply

  /** What the session learns from outside: whether a domain name's bytes
      decode as UTF-8, and whether connecting to a target succeeds. */
  datatype Env = Env(validName: seq<byte> -> bool, dial: Target -> bool)

  /** How a session ends. `Aborted` covers both the early returns and the
      exceptions caught at main.py line 123; `Relaying` hands the connection to the relay. */
  datatype Outcome = Aborted | Rejected(code: byte) | DialFailed | Relaying(target: Target)

  /** The bytes the server wrote, how the session ended, and how many bytes
      of the client's stream it read. */
  datatype Session = Session(output: seq<byte>, outcome: Outcome, consumed: nat)

  const SOCKS_VERSION: byte := 5
  const CMD_CONNECT: byte := 1
  /** Version 5, method 0 "no authentication required" (section 3 of RFC 1928). */
  const METHOD_SELECTED: seq<byte> := [5, 0]

  /** The request reply agrees with the outcome: none when the session aborts,
      and exactly one fixed-shape reply, with the outcome's code, otherwise. */
  predicate ReplyMatches(output: seq<byte>, outcome: Outcome) {
    match outcome
    case Aborted => output == []
    case Rejected(code) => code == Reply.COMMAND_NOT_SUPPORTED && output == Reply.Encode(code)
    case DialFailed => output == Reply.Encode(Reply.CONNECTION_REFUSED)
    case Relaying(target) => output == Reply.Encode(Reply.SUCCEEDED) && target.port < 0x1_0000
  }

  /** The request phase (main.py lines 78-121), on the stream after the method list. */
  function Request(stream: seq<byte>, env: Env): (s: Session)
    ensures s.consumed <= |stream|
    ensures ReplyMatches(s.output, s.outcome)
    // only a complete header with a command other than CONNECT is rejected
    ensures s.outcome.Rejected? <==> |stream| >= 4 && stream[1] != CMD_CONNECT
    // the server dials exactly the destination it decoded, and only for CONNECT
    ensures s.outcome.Relaying? || s.outcome.DialFailed? ==>
      |stream| >= 4 && stream[1] == CMD_CONNECT &&
      var d := DecodeTarget(stream[3], stream[4..], env.validName);
      d.Decoded? && s.consumed == |stream| - |d.rest| &&
      (s.outcome.Relaying? <==> env.dial(d.value)) &&
      (s.outcome.Relaying? ==> s.outcome.target == d.value)
    // and every CONNECT whose destination decodes is dialled
    ensures (|stream| >= 4 && stream[1] == CMD_CONNECT &&
             DecodeTarget(stream[3], stream[4..], env.validName).Decoded?) ==>
      s.outcome.Relaying? || s.outcome.DialFailed?
  {
    var h := Read(stream, 4);
    // an empty read returns at main.py line 80; a shorter one makes struct.unpack raise
    if |h.bytes| < 4 then Session([], Aborted, |h.bytes|)
    else
      assert h.bytes == stream[..4] && h.rest == stream[4..];
      var cmd, atyp := h.bytes[1], h.bytes[3];
      if cmd != CMD_CONNECT then
        Session(Reply.Encode(Reply.COMMAND_NOT_SUPPORTED), Rejected(Reply.COMMAND_NOT_SUPPORTED), 4)
      else
        match DecodeTarget(atyp, h.rest, env.validName)
        case Failed(rest) => Session([], Aborted, |stream| - |rest|)
        case Decoded(target, rest) =>
          if env.dial(target) then Session(Reply.SuccessReply(), Relaying(target), |stream| - |rest|)
          else Session(Reply.Encode(Reply.CONNECTION_REFUSED), DialFailed, |stream| - |rest|)
  }

  /** The whole session on the client's byte stream `input`. */
  function Handle(input: seq<byte>, env: Env): (s: Session)
    ensures s.consumed <= |input|
    // nothing at all is written unless the client opens with a SOCKS5 greeting
    ensures s.output == [] <==> |input| < 2 || input[0] != SOCKS_VERSION
    ensures s.output == [] ==> s.outcome == Aborted
    // otherwise the method selection comes first and at most one reply follows it
    ensures s.output != [] ==>
      |s.output| >= 2 && s.output[..2] == METHOD_SELECTED && ReplyMatches(s.output[2..], s.outcome)
  {
    var g := Read(input, 2);
    // an empty read returns at main.py line 67; a single byte makes struct.unpack raise
    if |g.bytes| < 2 then Session([], Aborted, |g.bytes|)
    // a version other than 5 closes the connection without a word (main.py lines 70-72)
    else if g.bytes[0] != SOCKS_VERSION then Session([], Aborted, 2)
    else
      // the method list is read and discarded; its length is not checked (main.py line 74)
      var methods := Read(g.rest, g.bytes[1] as nat);
      var r := Request(methods.rest, env);
      assert (METHOD_SELECTED + r.output)[2..] == r.output;
      Session(METHOD_SELECTED + r.output, r.outcome, 2 + |methods.bytes| + r.consumed)
  }
}
