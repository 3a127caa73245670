/**
 What a session does on each branch of the negotiation, and the round trip
 from the messages a client encodes to the server's outcome.
 */
module SessionProperties {
  import opened Wire
  import opened Address
  import opened Handshake
  import Reply
  import Client

  /** An empty or one-byte greeting, or one whose version is not 5, ends the
      session with nothing written, after at most the two header bytes. */
  lemma GreetingRefused(input: seq<byte>, env: Env)
    requires |input| < 2 || input[0] != SOCKS_VERSION
    ensures Handle(input, env) == Session([], Aborted, if |input| < 2 then |input| else 2)
  {
  }

  /** After a version-5 greeting exactly the offered methods are skipped, the
      method selection `05 00` is written, and the request phase runs on the
      bytes that follow, whatever the methods were. */
  lemma MethodsSkipped(methods: seq<byte>, rest: seq<byte>, env: Env)
    requires |methods| < 256
    ensures var r := Request(rest, env);
      Handle(Client.Greeting(methods) + rest, env)
        == Session(METHOD_SELECTED + r.output, r.outcome, 2 + |methods| + r.consumed)
  {
  }

  /** Two greetings offering the same number of methods lead to the same session. */
  lemma MethodsIgnored(m1: seq<byte>, m2: seq<byte>, rest: seq<byte>, env: Env)
    requires |m1| == |m2| < 256
    ensures Handle(Client.Greeting(m1) + rest, env) == Handle(Client.Greeting(m2) + rest, env)
  {
  }

  /** A method list cut short by the end of the stream is not noticed: the
      method selection is still written, then the request read finds nothing. */
  lemma ShortMethodList(input: seq<byte>, env: Env)
    requires |input| >= 2 && input[0] == SOCKS_VERSION
    requires |input| < 2 + input[1] as int
    ensures Handle(input, env) == Session(METHOD_SELECTED, Aborted, |input|)
  {
  }

  /** A request header cut short by the end of the stream ends the session
      with no reply. */
  lemma TruncatedRequest(stream: seq<byte>, env: Env)
    requires |stream| < 4
    ensures Request(stream, env) == Session([], Aborted, |stream|)
  {
  }

  /** The request's version and reserved bytes are never looked at. */
  lemma HeaderFieldsIgnored(ver1: byte, ver2: byte, cmd: byte, rsv1: byte, rsv2: byte, atyp: byte,
                            rest: seq<byte>, env: Env)
    ensures Request([ver1, cmd, rsv1, atyp] + rest, env) == Request([ver2, cmd, rsv2, atyp] + rest, env)
  {
  }

  /** A command other than CONNECT gets exactly the "command not supported"
      reply; no address or port byte is read. */
  lemma NonConnectRejected(header: seq<byte>, rest: seq<byte>, env: Env)
    requires |header| == 4 && header[1] != CMD_CONNECT
    ensures Request(header + rest, env)
         == Session(Reply.Encode(Reply.COMMAND_NOT_SUPPORTED), Rejected(Reply.COMMAND_NOT_SUPPORTED), 4)
  {
  }

  /** A rejected session never consulted either oracle: any other environment
      gives the same session. */
  lemma RejectionIgnoresEnv(input: seq<byte>, env1: Env, env2: Env)
    requires Handle(input, env1).outcome.Rejected?
    ensures Handle(input, env2) == Handle(input, env1)
  {
  }

  /** For CONNECT, the session follows the decoded destination: no reply when
      it cannot be decoded, otherwise the dial decides between the success
      reply with `Relaying` and the "connection refused" reply. */
  lemma ConnectOutcome(header: seq<byte>, rest: seq<byte>, env: Env)
    requires |header| == 4 && header[1] == CMD_CONNECT
    ensures var d := DecodeTarget(header[3], rest, env.validName);
      var s := Request(header + rest, env);
      var used := 4 + |rest| - |d.rest|;
      && (d.Failed? ==> s == Session([], Aborted, used))
      && (d.Decoded? && env.dial(d.value) ==>
            s == Session(Reply.Encode(Reply.SUCCEEDED), Relaying(d.value), used))
      && (d.Decoded? && !env.dial(d.value) ==>
            s == Session(Reply.Encode(Reply.CONNECTION_REFUSED), DialFailed, used))
  {
  }

  /** A CONNECT request whose fixed-length address or port is cut short by the
      end of the stream ends with no reply, every remaining byte read. */
  lemma TruncatedDestination(header: seq<byte>, rest: seq<byte>, env: Env)
    requires |header| == 4 && header[1] == CMD_CONNECT && header[3] != ATYP_DOMAIN
    requires |rest| < (if header[3] == ATYP_IPV4 then 4 else if header[3] == ATYP_IPV6 then 16 else 0) + 2
    ensures Request(header + rest, env) == Session([], Aborted, 4 + |rest|)
  {
    ConnectOutcome(header, rest, env);
  }

  /** A CONNECT request whose domain name is complete and decodes, but whose
      port is cut short by the end of the stream, ends with no reply, every
      remaining byte read. */
  lemma TruncatedDomainPort(name: seq<byte>, tail: seq<byte>, env: Env)
    requires |name| < 256 && env.validName(name) && |tail| < 2
    ensures Request([5, CMD_CONNECT, 0, ATYP_DOMAIN] + ([|name| as byte] + name + tail), env)
         == Session([], Aborted, 5 + |name| + |tail|)
  {
    var after := [|name| as byte] + name + tail;
    assert after[0] as int == |name|;
    assert after[1..1 + |name|] == name;
    assert after[1 + |name|..] == tail;
    ConnectOutcome([5, CMD_CONNECT, 0, ATYP_DOMAIN], after, env);
  }

  /** An address type other than 1, 3 and 4 reads no address, leaves no host,
      and still reads the port. */
  lemma UnknownAddressType(atyp: byte, port: seq<byte>, rest: seq<byte>, validName: seq<byte> -> bool)
    requires atyp !in {ATYP_IPV4, ATYP_DOMAIN, ATYP_IPV6}
    requires |port| == 2
    ensures DecodeTarget(atyp, port + rest, validName) == Decoded(Target(NoHost, DecodePort(port)), rest)
  {
  }

  /** Once the host field leaves a packed port in front, the port is read back. */
  lemma PortAfterHost(atyp: byte, stream: seq<byte>, validName: seq<byte> -> bool,
                      host: Host, port: nat, after: seq<byte>)
    requires port < 0x1_0000
    requires DecodeHost(atyp, stream, validName) == Decoded(host, EncodePort(port) + after)
    ensures DecodeTarget(atyp, stream, validName) == Decoded(Target(host, port), after)
  {
    var tail := EncodePort(port) + after;
    assert tail[..2] == EncodePort(port) && tail[2..] == after;
    PortRoundTrip(port);
  }

  /** The host field a client encodes is decoded to the host it names. */
  lemma DecodeHostField(d: Client.Destination, tail: seq<byte>, validName: seq<byte> -> bool)
    requires Client.ValidDestination(d)
    requires d.Name? ==> validName(d.name)
    ensures var field := Client.AddressField(d);
      DecodeHost(field[0], field[1..] + tail, validName) == Decoded(Client.HostOf(d), tail)
  {
    var field := Client.AddressField(d);
    var stream := field[1..] + tail;
    match d
    case V4(a) =>
      assert field[1..] == a;
      assert stream[..4] == a && stream[4..] == tail;
    case Name(n) =>
      assert field[1..] == [|n| as byte] + n;
      assert stream[0] as int == |n|;
      assert stream[1..1 + |n|] == n;
      assert stream[1 + |n|..] == tail;
    case V6(a) =>
      assert field[1..] == a;
      assert stream[..16] == a && stream[16..] == tail;
  }

  /** A CONNECT request with an unknown address type is not answered with a
      reply of its own: the port is read, the target with no host is dialled,
      and the dial decides between the success and "connection refused" replies. */
  lemma UnknownAddressTypeDialled(header: seq<byte>, port: seq<byte>, rest: seq<byte>, env: Env)
    requires |header| == 4 && header[1] == CMD_CONNECT
    requires header[3] !in {ATYP_IPV4, ATYP_DOMAIN, ATYP_IPV6}
    requires |port| == 2
    ensures var target := Target(NoHost, DecodePort(port));
      Request(header + (port + rest), env)
        == if env.dial(target) then Session(Reply.Encode(Reply.SUCCEEDED), Relaying(target), 6)
           else Session(Reply.Encode(Reply.CONNECTION_REFUSED), DialFailed, 6)
  {
    UnknownAddressType(header[3], port, rest, env.validName);
    ConnectOutcome(header, port + rest, env);
  }

  /** The server decodes exactly the destination and port a client encoded,
      consuming the address field and port and nothing after them. */
  lemma DecodeDestination(d: Client.Destination, port: nat, after: seq<byte>, validName: seq<byte> -> bool)
    requires Client.ValidDestination(d) && port < 0x1_0000
    requires d.Name? ==> validName(d.name)
    ensures var field := Client.AddressField(d);
      DecodeTarget(field[0], field[1..] + EncodePort(port) + after, validName)
        == Decoded(Target(Client.HostOf(d), port), after)
  {
    var field := Client.AddressField(d);
    var tail := EncodePort(port) + after;
    assert field[1..] + EncodePort(port) + after == field[1..] + tail;
    DecodeHostField(d, tail, validName);
    PortAfterHost(field[0], field[1..] + tail, validName, Client.HostOf(d), port, after);
  }

  /** A CONNECT request as a client encodes it, then any payload: the server
      replies once according to the dial on the destination the client named,
      and leaves the payload for the relay. */
  lemma RequestRoundTrip(d: Client.Destination, port: nat, payload: seq<byte>, env: Env)
    requires Client.ValidDestination(d) && port < 0x1_0000
    requires d.Name? ==> env.validName(d.name)
    ensures var target := Target(Client.HostOf(d), port);
      Request(Client.Request(CMD_CONNECT, d, port) + payload, env)
        == if env.dial(target) then Session(Reply.Encode(Reply.SUCCEEDED), Relaying(target),
                                            |Client.Request(CMD_CONNECT, d, port)|)
           else Session(Reply.Encode(Reply.CONNECTION_REFUSED), DialFailed,
                        |Client.Request(CMD_CONNECT, d, port)|)
  {
    var field := Client.AddressField(d);
    Client.RequestLayout(CMD_CONNECT, d, port, payload);
    ConnectOutcome([5, CMD_CONNECT, 0, field[0]], field[1..] + EncodePort(port) + payload, env);
    DecodeDestination(d, port, payload, env.validName);
  }

  /** A client's greeting followed by a CONNECT request, then any payload: the
      server selects no authentication, decodes the destination the client
      named, replies once according to the dial, and reads none of the payload. */
  lemma ConnectRoundTrip(methods: seq<byte>, d: Client.Destination, port: nat, payload: seq<byte>, env: Env)
    requires |methods| < 256 && Client.ValidDestination(d) && port < 0x1_0000
    requires d.Name? ==> env.validName(d.name)
    ensures var input := Client.Greeting(methods) + Client.Request(CMD_CONNECT, d, port) + payload;
      var target := Target(Client.HostOf(d), port);
      var s := Handle(input, env);
      && s.consumed == |input| - |payload|
      && (env.dial(target) ==>
            s.output == METHOD_SELECTED + Reply.Encode(Reply.SUCCEEDED) && s.outcome == Relaying(target))
      && (!env.dial(target) ==>
            s.output == METHOD_SELECTED + Reply.Encode(Reply.CONNECTION_REFUSED) && s.outcome == DialFailed)
  {
    var req := Client.Request(CMD_CONNECT, d, port);
    var rest := req + payload;
    assert Client.Greeting(methods) + req + payload == Client.Greeting(methods) + rest;
    MethodsSkipped(methods, rest, env);
    RequestRoundTrip(d, port, payload, env);
  }

  /** A domain name that does not decode as UTF-8 fails the destination
      right after the name bytes, before the port. */
  lemma UndecodableName(name: seq<byte>, tail: seq<byte>, validName: seq<byte> -> bool)
    requires |name| < 256 && !validName(name)
    ensures DecodeTarget(ATYP_DOMAIN, [|name| as byte] + name + tail, validName) == Failed(tail)
  {
    var stream := [|name| as byte] + name + tail;
    assert stream[0] as int == |name|;
    assert stream[1..1 + |name|] == name;
    assert stream[1 + |name|..] == tail;
  }

  /** A CONNECT request naming a domain that does not decode as UTF-8 ends
      after the name bytes with no reply; the port is never read. */
  lemma UndecodableNameAborts(name: seq<byte>, port: nat, payload: seq<byte>, env: Env)
    requires |name| < 256 && port < 0x1_0000
    requires !env.validName(name)
    ensures Request(Client.Request(CMD_CONNECT, Client.Name(name), port) + payload, env)
         == Session([], Aborted, 5 + |name|)
  {
    var d := Client.Name(name);
    var tail := EncodePort(port) + payload;
    Client.RequestLayout(CMD_CONNECT, d, port, payload);
    assert Client.AddressField(d)[1..] + EncodePort(port) + payload == [|name| as byte] + name + tail;
    UndecodableName(name, tail, env.validName);
    ConnectOutcome([5, CMD_CONNECT, 0, ATYP_DOMAIN], [|name| as byte] + name + tail, env);
  }
}
