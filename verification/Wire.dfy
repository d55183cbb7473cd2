/** The message header of net_msg.h and its byte layout on a host of either endianness. */
module Wire {
  import opened Bytes

  const HEADER_LEN: int := 8
  const LENGTH_HEADLEN: int := 4

  /** The MESSAGE_CHECK variant of the header is not part of this model. */
  datatype Header = Header(datalen: int32, kind: int32)

  type Frame = (Header, seq<byte>)

  function ToUnsigned(x: int32): (u: int)
    ensures 0 <= u < 0x1_0000_0000
  {
    if x >= 0 then x as int else x as int + 0x1_0000_0000
  }

  function ToSigned(u: int): int32
    requires 0 <= u < 0x1_0000_0000
  {
    if u <= INT32_MAX then u as int32 else (u - 0x1_0000_0000) as int32
  }

  /** Byte k of u, byte 0 being the least significant. */
  function ByteAt(u: int, k: nat): byte
    requires 0 <= u < 0x1_0000_0000 && k < 4
  {
    (match k
     case 0 => u
     case 1 => u / 0x100
     case 2 => u / 0x100 / 0x100
     case _ => u / 0x100 / 0x100 / 0x100) % 0x100
  }

  function Assemble(b0: byte, b1: byte, b2: byte, b3: byte): (u: int)
    ensures 0 <= u < 0x1_0000_0000
  {
    b0 + 0x100 * b1 + 0x1_0000 * b2 + 0x100_0000 * b3
  }

  lemma AssembleBytes(u: int)
    requires 0 <= u < 0x1_0000_0000
    ensures Assemble(ByteAt(u, 0), ByteAt(u, 1), ByteAt(u, 2), ByteAt(u, 3)) == u
  {
    var q1 := u / 0x100;
    var q2 := q1 / 0x100;
    var q3 := q2 / 0x100;
    assert u == 0x100 * q1 + ByteAt(u, 0);
    assert q1 == 0x100 * q2 + ByteAt(u, 1);
    assert q2 == 0x100 * q3 + ByteAt(u, 2);
    assert q3 == ByteAt(u, 3);
  }

  lemma BytesOfAssemble(b0: byte, b1: byte, b2: byte, b3: byte)
    ensures var u := Assemble(b0, b1, b2, b3);
      ByteAt(u, 0) == b0 && ByteAt(u, 1) == b1 && ByteAt(u, 2) == b2 && ByteAt(u, 3) == b3
  {
    var u := Assemble(b0, b1, b2, b3);
    assert u / 0x100 == b1 + 0x100 * b2 + 0x1_0000 * b3;
    assert u / 0x100 / 0x100 == b2 + 0x100 * b3;
    assert u / 0x100 / 0x100 / 0x100 == b3;
  }

  /** htonl and ntohl: a byte swap on a little-endian host, the identity on a big-endian one. */
  function HostToNet(little: bool, u: int): (r: int)
    requires 0 <= u < 0x1_0000_0000
    ensures 0 <= r < 0x1_0000_0000
  {
    if little then Assemble(ByteAt(u, 3), ByteAt(u, 2), ByteAt(u, 1), ByteAt(u, 0)) else u
  }

  function Int32ToChar(little: bool, x: int32): (c: seq<byte>)
    ensures |c| == 4
  {
    var net := HostToNet(little, ToUnsigned(x));
    [ByteAt(net, 3), ByteAt(net, 2), ByteAt(net, 1), ByteAt(net, 0)]
  }

  function CharToInt32(little: bool, c: seq<byte>): int32
    requires |c| == 4
  {
    ToSigned(HostToNet(little, Assemble(c[3], c[2], c[1], c[0])))
  }

  /** The int that the host sees in four bytes of memory: `*(int*)p`, or a memcpy into an int. */
  function MemInt32(little: bool, c: seq<byte>): int32
    requires |c| == 4
  {
    ToSigned(if little then Assemble(c[0], c[1], c[2], c[3]) else Assemble(c[3], c[2], c[1], c[0]))
  }

  /** The explicit decoder and a plain memory read agree on every four bytes. */
  lemma CharToInt32IsMemoryRead(little: bool, c: seq<byte>)
    requires |c| == 4
    ensures CharToInt32(little, c) == MemInt32(little, c)
  {
    BytesOfAssemble(c[3], c[2], c[1], c[0]);
  }

  lemma Int32RoundTrip(little: bool, x: int32)
    ensures MemInt32(little, Int32ToChar(little, x)) == x
    ensures CharToInt32(little, Int32ToChar(little, x)) == x
  {
    var u := ToUnsigned(x);
    BytesOfAssemble(ByteAt(u, 3), ByteAt(u, 2), ByteAt(u, 1), ByteAt(u, 0));
    AssembleBytes(u);
    CharToInt32IsMemoryRead(little, Int32ToChar(little, x));
  }

  lemma MemInt32Injective(little: bool, c: seq<byte>, e: seq<byte>)
    requires |c| == 4 && |e| == 4
    requires MemInt32(little, c) == MemInt32(little, e)
    ensures c == e
  {
    if little {
      BytesOfAssemble(c[0], c[1], c[2], c[3]);
      BytesOfAssemble(e[0], e[1], e[2], e[3]);
    } else {
      BytesOfAssemble(c[3], c[2], c[1], c[0]);
      BytesOfAssemble(e[3], e[2], e[1], e[0]);
    }
  }

  function HeaderToChar(little: bool, h: Header): (c: seq<byte>)
    ensures |c| == HEADER_LEN
  {
    Int32ToChar(little, h.datalen) + Int32ToChar(little, h.kind)
  }

  /** `memcpy(&theHeader, p, MESSAGE_HEADER_LEN)` on the packed struct. */
  function MemHeader(little: bool, c: seq<byte>): Header
    requires |c| == HEADER_LEN
  {
    Header(MemInt32(little, c[..4]), MemInt32(little, c[4..]))
  }

  /** The receiver's raw struct copy inverts the sender's encoder on hosts of equal endianness. */
  lemma HeaderRoundTrip(little: bool, h: Header)
    ensures MemHeader(little, HeaderToChar(little, h)) == h
  {
    Int32RoundTrip(little, h.datalen);
    Int32RoundTrip(little, h.kind);
    var c := HeaderToChar(little, h);
    assert c[..4] == Int32ToChar(little, h.datalen) && c[4..] == Int32ToChar(little, h.kind);
  }

  /** An unsigned number from its bytes, the least significant first. */
  function Value(b0: int, b1: int, b2: int, b3: int): int {
    b0 + 0x100 * b1 + 0x1_0000 * b2 + 0x100_0000 * b3
  }

  /** What is on the wire: datalen first, then the type, each in the order of the sending host. */
  lemma HostOrder(h: Header)
    ensures var c := HeaderToChar(true, h);
      Value(c[0], c[1], c[2], c[3]) == ToUnsigned(h.datalen) && Value(c[4], c[5], c[6], c[7]) == ToUnsigned(h.kind)
    ensures var c := HeaderToChar(false, h);
      Value(c[3], c[2], c[1], c[0]) == ToUnsigned(h.datalen) && Value(c[7], c[6], c[5], c[4]) == ToUnsigned(h.kind)
  {
    hide Value, ToUnsigned, Int32ToChar;
    IntOrder(h.datalen);
    IntOrder(h.kind);
  }

  lemma IntOrder(x: int32)
    ensures var c := Int32ToChar(true, x); Value(c[0], c[1], c[2], c[3]) == ToUnsigned(x)
    ensures var c := Int32ToChar(false, x); Value(c[3], c[2], c[1], c[0]) == ToUnsigned(x)
  {
    hide ToUnsigned;
    var u := ToUnsigned(x);
    AssembleBytes(u);
    BytesOfAssemble(ByteAt(u, 3), ByteAt(u, 2), ByteAt(u, 1), ByteAt(u, 0));
    hide ByteAt;
  }

  lemma MemHeaderInjective(little: bool, c: seq<byte>, e: seq<byte>)
    requires |c| == HEADER_LEN && |e| == HEADER_LEN
    requires MemHeader(little, c) == MemHeader(little, e)
    ensures c == e
  {
    MemInt32Injective(little, c[..4], e[..4]);
    MemInt32Injective(little, c[4..], e[4..]);
    assert c == c[..4] + c[4..] && e == e[..4] + e[4..];
  }

  /** What a sender puts on the wire for one message. */
  function Pack(little: bool, f: Frame): (r: seq<byte>)
    ensures |r| == HEADER_LEN + |f.1|
  {
    HeaderToChar(little, f.0) + f.1
  }

  /** A frame both ends can handle: the header states the body's length, and both fit the buffer. */
  ghost predicate WellFormed(cap: nat, f: Frame) {
    f.0.datalen as int == |f.1| && HEADER_LEN + |f.1| <= cap
  }

  /** PackData: append the encoded header, then datalen bytes of data. The receiver's struct copy finds
      the header in the first bytes, and the data is all that follows. */
  method PackData(little: bool, header: Header, data: array<byte>) returns (packed: seq<byte>)
    requires 0 <= header.datalen as int <= data.Length
    ensures |packed| == HEADER_LEN + header.datalen as int
    ensures MemHeader(little, packed[..HEADER_LEN]) == header && packed[HEADER_LEN..] == data[..header.datalen]
    ensures packed == Pack(little, (header, data[..header.datalen]))
  {
    HeaderRoundTrip(little, header);
    var packchar := HeaderToChar(little, header);
    packed := [];
    packed := packed + packchar;
    packed := packed + data[..header.datalen];
  }
}
