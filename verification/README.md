# SOCKS5 connection handshake, modelled in Dafny

This project models the per-connection handler of a small SOCKS5 proxy
server (`handle_client` in `main.py`). That handler is the server side of
RFC 1928: method negotiation (section 3), the request (section 4), address
decoding (section 5) and the reply (section 6). The model is a pure function
`Handshake.Handle(input, env)`. It takes the bytes the client sends and an
environment `env`. It returns a `Session`: the exact bytes the server writes,
how the session ends (`Aborted`, `Rejected(code)`, `DialFailed` or
`Relaying(target)`), and how many input bytes were read.

Modules, one per component:

- `Wire`: the byte type, `reader.read(n)`, and the big-endian 16-bit port.
- `DottedQuad`: `inet_ntoa` (a 4-byte address as dotted-decimal text) and
  `inet_aton` on that same text.
- `Address`: the destination of a request, chosen by the address-type byte,
  followed by the port.
- `Reply`: the fixed 10-byte reply and a client-side parser for it.
- `Handshake`: the session state machine: greeting, methods, request,
  destination, dial, reply.
- `Client`: an independent encoder for the messages a client sends. It is the
  partner of the server's decoder in the round-trip lemmas.
- `SessionProperties`: one lemma per branch, plus the round trip from client
  messages to the server's outcome.
- `Wrappers`: the `Option` type.

Modelling choices:

- Reads. The input is everything the client sends, followed by end of
  stream. `read(n)` returns the next `n` bytes, or all remaining bytes when
  fewer than `n` are left. So a read comes back short only at the end of the
  stream. Every short read the code checks or trips over ends the session with
  no further output. The early returns at lines 67 and 80 do this. So do the
  exceptions from `struct.unpack`, `inet_ntoa`, `inet_ntop` and indexing an
  empty read, which line 123 catches.
- The method read at line 74 is not checked. A method list cut short by the
  end of the stream still gets `05 00` written. The request read that follows
  then finds nothing, and the session ends (`SessionProperties.ShortMethodList`).
- The dial (`asyncio.open_connection`) is the oracle `env.dial`. UTF-8
  `.decode()` of a domain name is the oracle `env.validName`: if decoding
  fails, the source raises, so the session aborts before the port is read.
- A domain name and an IPv6 address are kept as raw bytes. An IPv4 address
  becomes its dotted-decimal text, as `inet_ntoa` prints it.
- An unknown address type gives the host `NoHost`. The port is still read,
  and the target is handed to the dial oracle unchanged, just as the code
  passes `None` to `open_connection`.

Notes on the code measured against RFC 1928:

- A failed dial is answered with reply code 0x05, which section 6 of
  RFC 1928 calls "connection refused".
- An unknown address type is not answered with 0x08 "address type not
  supported" (section 6 of RFC 1928). The code reads the port and dials with
  no host, and the reply is whichever one the dial decides.
- A domain-name length of 0 is accepted. It decodes to the empty name.

## Model

| member | source | states |
|---|---|---|
| Wire.Read | main.py:66-74 | a read returns at most `n` bytes, in stream order, and falls short only at the end of the stream |
| Wire.DecodePort | main.py:101-102 | the port is `256*hi + lo` for the two bytes after the address, and is below 65536 |
| Wire.EncodePort | main.py:116 | `struct.pack("!H", p)` gives two bytes whose big-endian value is `p` |
| Wire.PortRoundTrip | main.py:101-102 | decoding the packed bytes of a port gives the port back |
| Wire.PortBytesRoundTrip | main.py:101-102 | packing a decoded port gives back the same two bytes |
| Wire.PortExample | main.py:101-102 | bytes `1F 90` decode to port 8080 |
| DottedQuad.Decimal | main.py:93 | each byte is printed as decimal digits with no leading zero and no '.' |
| DottedQuad.DecimalRoundTrip | main.py:93 | the printed digits of a number denote that number |
| DottedQuad.ParseByte | main.py:116 | a field is accepted only as canonical decimal digits whose value is the byte returned |
| DottedQuad.ParseDecimalByte | main.py:93 | the printed text of every byte parses back to that byte |
| DottedQuad.Format | main.py:93 | `inet_ntoa` text has exactly four '.'-separated fields, the decimal text of each address byte in order |
| DottedQuad.FormatFields | main.py:93 | `inet_ntoa` text has exactly four '.'-separated fields, the decimal text of each address byte in order |
| DottedQuad.Parse | main.py:116 | `inet_aton` accepts only four-field text and yields four bytes |
| DottedQuad.ParseFormat | main.py:93 | parsing the text `inet_ntoa` prints gives back the 4-byte address |
| DottedQuad.FormatInjective | main.py:93 | two different IPv4 addresses never print as the same host text |
| DottedQuad.FormatLoopback | main.py:93 | `[127,0,0,1]` prints as `"127.0.0.1"` |
| DottedQuad.ParseZeroAddress | main.py:116 | `inet_aton('0.0.0.0')` is four zero bytes |
| Address.DecodeIPv4 | main.py:91-93 | address type 1 succeeds exactly when 4 bytes remain, consumes those 4 bytes and yields their dotted-decimal text; when it fails, every remaining byte has been read |
| Address.DecodeDomain | main.py:94-96 | address type 3 reads a length byte `n` and exactly `n` name bytes, whether or not they decode; it fails with nothing read on an empty stream and fails on a name that does not decode; a name cut short leaves nothing for the port |
| Address.DecodeIPv6 | main.py:97-99 | address type 4 succeeds exactly when 16 bytes remain and consumes those 16 bytes; when it fails, every remaining byte has been read |
| Address.DecodeHost | main.py:90-99 | types 1, 3 and 4 are decoded as IPv4, domain name and IPv6 respectively; any other type reads nothing and yields no host, and `NoHost` arises only from such types |
| Address.DecodeTarget | main.py:90-102 | the destination is decoded exactly when its host field and then 2 port bytes can be read; the port is read in every case and is below 65536; a failed host field fails the destination, and a port cut short leaves nothing unread |
| Address.DecodeLoopback | main.py:90-102 | type 1 with bytes `127 0 0 1 1F 90` is host `"127.0.0.1"`, port 8080, and the following bytes are left unread |
| Address.DecodeEmptyName | main.py:94-96 | type 3 with length byte 0 yields the empty name and reads the port right after it |
| Reply.Encode | main.py:84 | every reply is 10 bytes: `05`, the code, `00`, `01`, then a zero bind address and a zero bind port |
| Reply.SuccessReply | main.py:116 | the success reply, built from `inet_aton('0.0.0.0')` and a packed port 0, is the fixed-shape reply with code 0 |
| Reply.ParseEncode | main.py:84 | parsing the reply the server encodes for any code gives back that code |
| Reply.EncodeParse | main.py:84 | every byte string a client accepts as a reply is the server's reply for its code |
| Handshake.Request | main.py:78-121 | the request phase writes no reply when it aborts, and otherwise exactly one reply whose code matches the outcome; it rejects exactly the complete headers whose command is not CONNECT; every CONNECT whose destination decodes is dialled, the dial is of exactly the decoded destination, and it relays only when that dial succeeds |
| Handshake.Handle | main.py:60-126 | nothing is written unless the input opens with a version-5 greeting; otherwise the output is `05 00` followed by at most one reply that matches the outcome; no more bytes are consumed than were sent |
| Client.Greeting | main.py:66-74 | a greeting is the version, the method count and the methods |
| Client.Request | main.py:79-102 | a request is a 4-byte header, then the address field and the 2-byte port |
| SessionProperties.GreetingRefused | main.py:66-72 | an empty or one-byte greeting, or a version other than 5, ends the session with zero bytes written |
| SessionProperties.MethodsSkipped | main.py:74-76 | after a version-5 greeting exactly `nmethods` bytes are skipped, `05 00` is written first, and the request phase runs on the bytes after them |
| SessionProperties.MethodsIgnored | main.py:74-76 | the methods offered never affect the session, only how many there are |
| SessionProperties.ShortMethodList | main.py:74-80 | a method list cut short still gets `05 00`, then the session ends with everything consumed and no reply |
| SessionProperties.TruncatedRequest | main.py:79-81 | a request header shorter than 4 bytes ends the session with no reply |
| SessionProperties.HeaderFieldsIgnored | main.py:81-83 | the request's version and reserved bytes never affect the outcome or the output |
| SessionProperties.NonConnectRejected | main.py:83-88 | a command other than 1 gets exactly the reply `05 07 00 01 00 00 00 00 00 00`, consumes only the 4 header bytes and ends the session |
| SessionProperties.RejectionIgnoresEnv | main.py:83-88 | a rejected session is the same under every dial oracle and name decoder: neither is consulted |
| SessionProperties.ConnectOutcome | main.py:90-118 | for CONNECT: an undecodable destination aborts with no reply; a failed dial gives exactly the code-5 reply and `DialFailed`; a successful dial gives exactly the code-0 reply and `Relaying` of the decoded target |
| SessionProperties.TruncatedDestination | main.py:90-102 | a CONNECT request of any address type other than 3 whose IPv4 address, IPv6 address or port is cut short ends with no reply after reading every remaining byte |
| SessionProperties.TruncatedDomainPort | main.py:94-102 | a CONNECT request whose domain name is complete and decodes but whose port is cut short ends with no reply after reading every remaining byte |
| SessionProperties.UnknownAddressType | main.py:90-102 | an unknown address type reads no address, yields no host, and still reads the port |
| SessionProperties.UnknownAddressTypeDialled | main.py:90-116 | a CONNECT request with an unknown address type reads 6 bytes, dials the target with no host and the port read, and gets the success reply with `Relaying` or the code-5 reply with `DialFailed` as the dial decides |
| SessionProperties.DecodeHostField | main.py:90-99 | the host field a client encodes for an IPv4 address, domain name or IPv6 address decodes to that host and reads nothing after the field |
| SessionProperties.DecodeDestination | main.py:90-102 | the server decodes exactly the host and port a client encoded, and reads no byte after them |
| SessionProperties.RequestRoundTrip | main.py:90-118 | a client-encoded CONNECT request gets the reply its dial decides, and only the request bytes are consumed |
| SessionProperties.ConnectRoundTrip | main.py:60-121 | a client greeting plus CONNECT request, then any payload, ends in `Relaying` of the named target with output `05 00` plus the success reply when the dial succeeds, and in `DialFailed` with the code-5 reply otherwise; the negotiation reads none of the payload |
| SessionProperties.UndecodableName | main.py:94-96 | a domain name that fails to decode fails the destination right after the name bytes |
| SessionProperties.UndecodableNameAborts | main.py:94-96 | a domain name that fails to decode aborts the request with no reply after the name bytes; the port is not read |

## Left out

- `relay_data` / `forward` (lines 128-142): two concurrent copy loops. They are modelled only as the terminal outcome `Relaying(target)`.
- `asyncio.open_connection` (line 108): a network dial and name lookup. It is replaced by the oracle `env.dial`. What it does with the `None` host of an unknown address type belongs to the library.
- UTF-8 decoding of a domain name (line 96): a library call. It is replaced by the oracle `env.validName`. The decoded text is not built; the name is kept as bytes. The oracle is left unconstrained, so it may even reject the empty name, which real UTF-8 decoding never does; every property is proved for every oracle, and `Address.DecodeEmptyName` states the one it needs as a precondition.
- `inet_ntop` text for IPv6 (line 99): its textual compression is not modelled. The 16 bytes are kept, and the length check it performs is modelled.
- DottedQuad.Parse: models `inet_aton` only on four-part decimal text without leading zeros. Its octal, hexadecimal and fewer-part forms are left out; the code applies it only to the constant `'0.0.0.0'`.
- Transport behaviour: reads that the transport splits into pieces before the end of the stream, failures of `write`/`drain`, and the timing of `drain()`/`close()` (lines 76, 113, 126).
- `is_admin`, `setup_firewall` and the elevation block (lines 21-58, 155-174): Windows API calls and `netsh`.
- `main`, `asyncio.start_server` and the logging setup (lines 11-19, 144-153), and every `logger` call: listener bootstrap and I/O.
