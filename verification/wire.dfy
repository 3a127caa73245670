/**
 The client's byte stream, and the big-endian 16-bit port field.

 A read is modelled as `StreamReader.read(n)` behaves once every byte the
 client will send has been delivered and the stream has reached end of file:
 it returns the next `n` bytes, or all that remain when fewer than `n` do.
 The stream is represented by the bytes not read yet.
 */
module Wire {

  /** An octet of the stream. */
  newtype byte = b: int | 0 <= b < 256

  /** The result of one read: the bytes returned and the stream left after it. */
  datatype Chunk = Chunk(bytes: seq<byte>, rest: seq<byte>)

  /** `reader.read(n)` on the unread bytes `stream`. */
  function Read(stream: seq<byte>, n: nat): (c: Chunk)
    ensures c.bytes + c.rest == stream
    ensures |c.bytes| <= n
    // a read comes back short only at the end of the stream
    ensures |c.bytes| < n ==> c.rest == []
  {
    if n <= |stream| then Chunk(stream[..n], stream[n..]) else Chunk(stream, [])
  }

  /** `struct.unpack("!H", b)`: two bytes, most significant first. */
  function DecodePort(b: seq<byte>): (port: nat)
    requires |b| == 2
    ensures port < 0x1_0000
    ensures port / 256 == b[0] as int && port % 256 == b[1] as int
  {
    b[0] as int * 256 + b[1] as int
  }

  /** `struct.pack("!H", port)`. */
  function EncodePort(port: nat): (b: seq<byte>)
    requires port < 0x1_0000
    ensures |b| == 2
    ensures b[0] as int * 256 + b[1] as int == port
  {
    [(port / 256) as byte, (port % 256) as byte]
  }

  lemma PortRoundTrip(port: nat)
    requires port < 0x1_0000
    ensures DecodePort(EncodePort(port)) == port
  {
  }

  lemma PortBytesRoundTrip(b: seq<byte>)
    requires |b| == 2
    ensures EncodePort(DecodePort(b)) == b
  {
  }

  /** The bytes `1F 90` are port 8080. */
  lemma PortExample()
    ensures DecodePort([0x1F, 0x90]) == 8080
  {
  }
}
