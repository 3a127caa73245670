/**
 Decoding of the request's destination: the address field selected by the
 address-type byte (section 5 of RFC 1928) followed by the 2-byte port.
 */
module Address {
  import opened Wire
  import DottedQuad

  const ATYP_IPV4: byte := 1
  const ATYP_DOMAIN: byte := 3
  const ATYP_IPV6: byte := 4

  /** The host handed to the dialer. A domain name and an IPv6 address are kept
      as the raw bytes of the request; an unknown address type leaves no host. */
  datatype Host = IPv4(text: string) | DomainName(name: seq<byte>) | IPv6(addr: seq<byte>) | NoHost

  datatype Target = Target(host: Host, port: nat)

  /** A decoding step either yields a value and the stream after it, or fails
      (the source raises, which ends the session) having consumed up to `rest`. */
  datatype Decoded<T> = Decoded(value: T, rest: seq<byte>) | Failed(rest: seq<byte>)

  /** `rest` is what is left of `stream` after reading some prefix of it. */
  predicate Suffix(rest: seq<byte>, stream: seq<byte>) {
    |rest| <= |stream| && stream[|stream| - |rest|..] == rest
  }

  /** Address type 1: four bytes, printed by `inet_ntoa`. */
  function DecodeIPv4(stream: seq<byte>): (r: Decoded<Host>)
    ensures Suffix(r.rest, stream)
    ensures r.Decoded? <==> |stream| >= 4
    ensures r.Decoded? ==> r.value == IPv4(DottedQuad.Format(stream[..4])) && r.rest == stream[4..]
    // the short read that makes inet_ntoa raise has taken every remaining byte
    ensures r.Failed? ==> r.rest == []
  {
    var c := Read(stream, 4);
    // inet_ntoa raises on anything but 4 bytes
    if |c.bytes| != 4 then Failed(c.rest) else Decoded(IPv4(DottedQuad.Format(c.bytes)), c.rest)
  }

  /** Address type 3: a length byte, then that many name bytes. `validName`
      stands for UTF-8 `.decode()` succeeding on the bytes read. */
  function DecodeDomain(stream: seq<byte>, validName: seq<byte> -> bool): (r: Decoded<Host>)
    ensures Suffix(r.rest, stream)
    ensures |stream| == 0 ==> r == Failed([])
    ensures |stream| >= 1 && |stream| >= 1 + stream[0] as int ==>
      var name := stream[1..1 + stream[0] as int];
      (r.Decoded? <==> validName(name)) &&
      (r.Decoded? ==> r.value == DomainName(name)) &&
      // decoded or not, the name bytes have been read and nothing after them
      r.rest == stream[1 + stream[0] as int..]
    // a name cut short by the end of the stream leaves nothing for the port
    ensures 1 <= |stream| < 1 + stream[0] as int ==> r.rest == []
  {
    var len := Read(stream, 1);
    // indexing an empty read raises
    if |len.bytes| == 0 then Failed(len.rest)
    else
      assert len.rest == stream[1..];
      var name := Read(len.rest, len.bytes[0] as nat);
      assert |stream| >= 1 + stream[0] as int ==> name.bytes == stream[1..1 + stream[0] as int];
      if !validName(name.bytes) then Failed(name.rest) else Decoded(DomainName(name.bytes), name.rest)
  }

  /** Address type 4: sixteen bytes, kept as they are. */
  function DecodeIPv6(stream: seq<byte>): (r: Decoded<Host>)
    ensures Suffix(r.rest, stream)
    ensures r.Decoded? <==> |stream| >= 16
    ensures r.Decoded? ==> r.value == IPv6(stream[..16]) && r.rest == stream[16..]
    // the short read that makes inet_ntop raise has taken every remaining byte
    ensures r.Failed? ==> r.rest == []
  {
    var c := Read(stream, 16);
    // inet_ntop raises on anything but 16 bytes
    if |c.bytes| != 16 then Failed(c.rest) else Decoded(IPv6(c.bytes), c.rest)
  }

  /** The host field of a request whose address type is `atyp`. */
  function DecodeHost(atyp: byte, stream: seq<byte>, validName: seq<byte> -> bool): (r: Decoded<Host>)
    ensures Suffix(r.rest, stream)
    ensures atyp == ATYP_IPV4 ==> r == DecodeIPv4(stream)
    ensures atyp == ATYP_DOMAIN ==> r == DecodeDomain(stream, validName)
    ensures atyp == ATYP_IPV6 ==> r == DecodeIPv6(stream)
    // an unknown address type reads nothing and leaves no host
    ensures atyp !in {ATYP_IPV4, ATYP_DOMAIN, ATYP_IPV6} ==> r == Decoded(NoHost, stream)
    ensures r.Decoded? && r.value.NoHost? ==> atyp !in {ATYP_IPV4, ATYP_DOMAIN, ATYP_IPV6}
  {
    if atyp == ATYP_IPV4 then DecodeIPv4(stream)
    else if atyp == ATYP_DOMAIN then DecodeDomain(stream, validName)
    else if atyp == ATYP_IPV6 then DecodeIPv6(stream)
    else Decoded(NoHost, stream)
  }

  /** The destination (main.py lines 90-102): the host field, then the port, which is
      read whatever the address type. */
  function DecodeTarget(atyp: byte, stream: seq<byte>, validName: seq<byte> -> bool): (r: Decoded<Target>)
    ensures Suffix(r.rest, stream)
    ensures r.Decoded? ==> r.value.port < 0x1_0000
    ensures var h := DecodeHost(atyp, stream, validName);
      (r.Decoded? <==> h.Decoded? && |h.rest| >= 2) &&
      (r.Decoded? ==> r.value == Target(h.value, DecodePort(h.rest[..2])) && r.rest == h.rest[2..]) &&
      (h.Failed? ==> r == Failed(h.rest)) &&
      // a port cut short by the end of the stream: struct.unpack raises with nothing left
      (h.Decoded? && |h.rest| < 2 ==> r == Failed([]))
  {
    match DecodeHost(atyp, stream, validName)
    case Failed(rest) => Failed(rest)
    case Decoded(host, rest) =>
      var p := Read(rest, 2);
      // struct.unpack raises on anything but 2 bytes
      if |p.bytes| != 2 then Failed(p.rest) else Decoded(Target(host, DecodePort(p.bytes)), p.rest)
  }

  /** Type 1 with bytes 127 0 0 1 and port bytes 1F 90 is 127.0.0.1, port 8080. */
  lemma DecodeLoopback(rest: seq<byte>, validName: seq<byte> -> bool)
    ensures DecodeTarget(ATYP_IPV4, [127, 0, 0, 1, 0x1F, 0x90] + rest, validName)
         == Decoded(Target(IPv4("127.0.0.1"), 8080), rest)
  {
    var s := [127, 0, 0, 1, 0x1F, 0x90] + rest;
    assert s[..4] == [127, 0, 0, 1];
    assert s[4..][..2] == [0x1F, 0x90];
    assert s[4..][2..] == rest;
    DottedQuad.FormatLoopback();
  }

  /** Type 3 with length 0 decodes the empty name and goes straight to the port. */
  lemma DecodeEmptyName(port: seq<byte>, rest: seq<byte>, validName: seq<byte> -> bool)
    requires |port| == 2
    requires validName([])
    ensures DecodeTarget(ATYP_DOMAIN, [0] + port + rest, validName)
         == Decoded(Target(DomainName([]), DecodePort(port)), rest)
  {
  }
}
