/**
 The messages a SOCKS5 client sends (sections 3 to 5 of RFC 1928), encoded
 independently of the server's decoder: the greeting with its method list,
 and a request naming a destination.
 */
module Client {
  import opened Wire
  import DottedQuad
  import Address

  /** A destination as a client names it. */
  datatype Destination = V4(addr: seq<byte>) | Name(name: seq<byte>) | V6(addr: seq<byte>)

  predicate ValidDestination(d: Destination) {
    match d
    case V4(a) => |a| == 4
    case Name(n) => |n| < 256
    case V6(a) => |a| == 16
  }

  /** The version-5 greeting offering `methods`. */
  function Greeting(methods: seq<byte>): (b: seq<byte>)
    requires |methods| < 256
    ensures |b| == 2 + |methods|
    ensures b[..2] == [5, |methods| as byte] && b[2..] == methods
  {
    [5, |methods| as byte] + methods
  }

  /** The address-type byte and address field of a destination. */
  function AddressField(d: Destination): (b: seq<byte>)
    requires ValidDestination(d)
    ensures |b| >= 1
  {
    match d
    case V4(a) => [Address.ATYP_IPV4] + a
    case Name(n) => [Address.ATYP_DOMAIN, |n| as byte] + n
    case V6(a) => [Address.ATYP_IPV6] + a
  }

  /** A request with command `cmd` for destination `d` and `port`: version,
      command, reserved byte, address type, address, port. */
  function Request(cmd: byte, d: Destination, port: nat): (b: seq<byte>)
    requires ValidDestination(d) && port < 0x1_0000
    ensures |b| == 3 + |AddressField(d)| + 2
    ensures b[..3] == [5, cmd, 0]
  {
    [5, cmd, 0] + AddressField(d) + EncodePort(port)
  }

  /** A request followed by more bytes, seen as the 4-byte header the server
      reads first and everything after it. */
  lemma RequestLayout(cmd: byte, d: Destination, port: nat, after: seq<byte>)
    requires ValidDestination(d) && port < 0x1_0000
    ensures Request(cmd, d, port) + after
         == [5, cmd, 0, AddressField(d)[0]] + (AddressField(d)[1..] + EncodePort(port) + after)
  {
    var field := AddressField(d);
    assert field == [field[0]] + field[1..];
  }

  /** The host the server is expected to dial for `d`. */
  function HostOf(d: Destination): Address.Host
    requires ValidDestination(d)
  {
    match d
    case V4(a) => Address.IPv4(DottedQuad.Format(a))
    case Name(n) => Address.DomainName(n)
    case V6(a) => Address.IPv6(a)
  }
}
