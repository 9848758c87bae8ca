/**
 * The frame encoder of `PrinterPacket`: a six-byte header, the payload
 * verbatim, and a two-byte footer.
 *
 *   offset 0-1   magic 0x7851, written as a little-endian `uint16_t` (51 78)
 *   offset 2     command
 *   offset 3     direction, always 0x00 on frames the client sends
 *   offset 4-5   payload length, low byte then high byte
 *   offset 6..   payload
 *   6 + n        CRC-8 of the payload alone
 *   7 + n        end marker 0xFF
 *
 * The firmware has no decoder; `Parse` is the inverse the encoder is proved
 * against.
 */
module PrinterPacket {
  import opened Bytes
  import Checksum8Bit

  /** `sizeof(PacketHeader)`: magic (2), command (1), direction (1), length (2), no padding. */
  const HeaderSize: nat := 6

  /** `sizeof(PacketFooter)`: checksum (1), end marker (1). */
  const FooterSize: nat := 2

  /** The magic 0x7851 as it lies in memory on the little-endian target. */
  const MagicLow: byte := 0x51
  const MagicHigh: byte := 0x78

  /** Direction byte of a client-to-printer frame. */
  const DirectionOut: byte := 0x00

  /** The footer's end marker. */
  const EndMarker: byte := 0xFF

  /** A decoded frame: the command and its payload. */
  datatype Packet = Packet(command: byte, data: seq<byte>)

  /** `getPacketLength`: total frame size for a payload of `dataLength` bytes. */
  function PacketLength(dataLength: nat): (n: nat)
    ensures n == dataLength + 8
    ensures n > dataLength
  {
    HeaderSize + dataLength + FooterSize
  }

  /**
   * The two length bytes. The firmware stores `dataLength & 0xff` and
   * `(dataLength >> 8) & 0xff` of the `size_t` length: the low and high byte
   * of the length modulo 65536.
   */
  function LengthBytes(dataLength: nat): (field: seq<byte>)
    ensures |field| == 2
    ensures field[0] as int + 256 * (field[1] as int) == dataLength % 65536
  {
    var m := dataLength % 65536;
    [ByteOf(m % 256), ByteOf(m / 256)]
  }

  /**
   * Byte by byte, the length field is the low byte of the length and the
   * next byte up: `dataLength & 0xff` and `(dataLength >> 8) & 0xff`.
   */
  lemma LengthBytesValue(dataLength: nat)
    ensures LengthBytes(dataLength)[0] as int == dataLength % 256
    ensures LengthBytes(dataLength)[1] as int == (dataLength / 256) % 256
  {
    var m := dataLength % 65536;
    assert m % 256 == dataLength % 256;
    assert m / 256 == (dataLength / 256) % 256;
  }

  lemma LengthBytesSplit(m: nat, low: int, high: int)
    requires 0 <= low < 256 && 0 <= high < 256
    requires m % 65536 == m && m % 256 == low && m / 256 == high
    ensures LengthBytes(m) == [ByteOf(low), ByteOf(high)]
  {
    assert LengthBytes(m) == [ByteOf(m % 256), ByteOf(m / 256)];
  }

  /** A length below 65536 is stored as its low byte, then its high byte. */
  lemma LengthBytesOf(n: nat, low: byte, high: byte)
    requires n == low as int + 256 * (high as int)
    ensures LengthBytes(n) == [low, high]
  {
    var lo, hi := low as int, high as int;
    assert LengthBytes(n) == [ByteOf(lo), ByteOf(hi)] by {
      assert n % 65536 == n && n % 256 == lo && n / 256 == hi by {
        SplitLowHigh(lo, hi);
      }
      LengthBytesSplit(n, lo, hi);
    }
    ByteOfValue(low);
    ByteOfValue(high);
  }

  /** The header as it lies in memory. */
  function Header(command: byte, dataLength: nat): seq<byte> {
    [MagicLow, MagicHigh, command, DirectionOut] + LengthBytes(dataLength)
  }

  /** The footer as it lies in memory: checksum of the payload, then the end marker. */
  function Footer(data: seq<byte>): seq<byte> {
    [Checksum8Bit.Calculate(data), EndMarker]
  }

  /** `makePacket`: the frame for `command` carrying `data`. */
  function MakePacket(command: byte, data: seq<byte>): (frame: seq<byte>)
    ensures |frame| == PacketLength(|data|)
  {
    Header(command, |data|) + data + Footer(data)
  }

  /** `makePacketUInt8`: the frame carrying the single byte `b`. */
  function MakePacketUInt8(command: byte, b: byte): (frame: seq<byte>)
    ensures |frame| == PacketLength(1)
  {
    MakePacket(command, [b])
  }

  /** A one-byte frame is nine bytes whose checksum is the table entry of the payload byte. */
  lemma MakePacketUInt8Layout(command: byte, b: byte)
    ensures MakePacketUInt8(command, b)
         == [0x51, 0x78, command, 0x00, 0x01, 0x00, b, Checksum8Bit.Crc8OfByte(b), 0xFF]
  {
    Checksum8Bit.CalculateSingle(b);
    MakePacketShort(command, [b], 1, Checksum8Bit.Crc8OfByte(b));
  }

  /**
   * A frame whose payload is shorter than 256 bytes, field by field: the
   * length field is the payload length in its low byte and zero in its high
   * byte.
   */
  lemma MakePacketShort(command: byte, data: seq<byte>, length: byte, checksum: byte)
    requires |data| == length as int
    requires Checksum8Bit.Calculate(data) == checksum
    ensures MakePacket(command, data) == [0x51, 0x78, command, 0x00, length, 0x00] + data + [checksum, 0xFF]
  {
    HeaderLayout(command, |data|, length, 0);
  }

  /** The header of a payload of length `low + 256 * high`, byte by byte. */
  lemma HeaderLayout(command: byte, n: nat, low: byte, high: byte)
    requires n == low as int + 256 * (high as int)
    ensures Header(command, n) == [0x51, 0x78, command, 0x00, low, high]
  {
    LengthBytesOf(n, low, high);
  }

  /**
   * `makePacket` with its destination buffer: the frame is written at the
   * start of `dst` and every byte after it keeps its value. The source
   * asserts the buffer is large enough.
   */
  method WritePacket(command: byte, data: seq<byte>, dst: seq<byte>) returns (out: seq<byte>)
    requires |dst| >= PacketLength(|data|)
    ensures |out| == |dst|
    ensures out[..PacketLength(|data|)] == MakePacket(command, data)
    ensures out[PacketLength(|data|)..] == dst[PacketLength(|data|)..]
  {
    var checksum := Checksum8Bit.CalculateLoop(data);
    var source := Header(command, |data|) + data + [checksum, EndMarker];
    assert source == MakePacket(command, data) by {
      Checksum8Bit.CalculateIsBitwise(data, 0);
    }
    out := CopyInto(source, dst);
  }

  /** The `memcpy`s of `makePacket`: `source` written over the start of `dst`. */
  method CopyInto(source: seq<byte>, dst: seq<byte>) returns (out: seq<byte>)
    requires |source| <= |dst|
    ensures |out| == |dst|
    ensures out[..|source|] == source
    ensures out[|source|..] == dst[|source|..]
  {
    out := dst;
    var i := 0;
    while i < |source|
      invariant 0 <= i <= |source| && |out| == |dst|
      invariant forall k :: 0 <= k < i ==> out[k] == source[k]
      invariant forall k :: |source| <= k < |out| ==> out[k] == dst[k]
    {
      out := out[i := source[i]];
      i := i + 1;
    }
  }

  /** The inverse of the encoder: the command and payload of a well-formed frame. */
  function Parse(frame: seq<byte>): (r: Option<Packet>)
    ensures r.Some? ==> |frame| == PacketLength(|r.value.data|) && frame[2] == r.value.command
  {
    if |frame| < HeaderSize + FooterSize then None
    else if frame[0] != MagicLow || frame[1] != MagicHigh || frame[3] != DirectionOut then None
    else
      var n := frame[4] as int + 256 * (frame[5] as int);
      if |frame| != PacketLength(n) then None
      else
        var data := frame[HeaderSize..HeaderSize + n];
        if frame[HeaderSize + n] != Checksum8Bit.Calculate(data) || frame[HeaderSize + n + 1] != EndMarker then None
        else Some(Packet(frame[2], data))
  }

  /**
   * The frame layout field by field: magic, command, direction, the payload
   * length modulo 65536 in little-endian order, the payload, its checksum and
   * the end marker.
   */
  ghost predicate FrameLayout(frame: seq<byte>, command: byte, data: seq<byte>) {
    && |frame| == PacketLength(|data|)
    && frame[0] == MagicLow && frame[1] == MagicHigh
    && frame[2] == command && frame[3] == DirectionOut
    && frame[4] as int + 256 * (frame[5] as int) == |data| % 65536
    && frame[HeaderSize..HeaderSize + |data|] == data
    && frame[HeaderSize + |data|] == Checksum8Bit.Calculate(data)
    && frame[HeaderSize + |data| + 1] == EndMarker
  }

  /** The encoder lays every frame out as the layout describes. */
  lemma MakePacketLayout(command: byte, data: seq<byte>)
    ensures FrameLayout(MakePacket(command, data), command, data)
  {
    var frame := MakePacket(command, data);
    var length := LengthBytes(|data|);
    assert frame[4] == length[0] && frame[5] == length[1];
    LengthBytesValue(|data|);
  }

  /** The first six bytes of a frame with magic and direction in place are its header. */
  lemma HeaderOf(frame: seq<byte>, n: nat)
    requires |frame| >= HeaderSize
    requires frame[0] == MagicLow && frame[1] == MagicHigh && frame[3] == DirectionOut
    requires frame[4] as int + 256 * (frame[5] as int) == n % 65536
    ensures frame[..HeaderSize] == Header(frame[2], n)
  {
    LengthBytesOf(n % 65536, frame[4], frame[5]);
    ModBelow(n % 65536, 65536);
    assert LengthBytes(n) == LengthBytes(n % 65536);
    assert Header(frame[2], n) == [MagicLow, MagicHigh, frame[2], DirectionOut] + [frame[4], frame[5]];
  }

  /** The last two bytes of a frame are its footer exactly when they are the payload's checksum and the end marker. */
  lemma FooterOf(frame: seq<byte>, data: seq<byte>)
    requires |frame| == PacketLength(|data|)
    ensures frame[HeaderSize + |data|..] == Footer(data)
        <==> frame[HeaderSize + |data|] == Checksum8Bit.Calculate(data) && frame[HeaderSize + |data| + 1] == EndMarker
  {
    var footer := frame[HeaderSize + |data|..];
    assert footer[0] == frame[HeaderSize + |data|];
    assert footer[1] == frame[HeaderSize + |data| + 1];
  }

  /** Header, payload and footer in place make the encoder's frame. */
  lemma Assemble(frame: seq<byte>, command: byte, data: seq<byte>)
    requires |frame| == PacketLength(|data|)
    requires frame[..HeaderSize] == Header(command, |data|)
    requires frame[HeaderSize..HeaderSize + |data|] == data
    requires frame[HeaderSize + |data|..] == Footer(data)
    ensures MakePacket(command, data) == frame
  {
    SplitThree(frame, HeaderSize, HeaderSize + |data|);
  }

  /** The layout determines the frame: the only frame laid out for a command and payload is the encoder's. */
  lemma LayoutIsMakePacket(frame: seq<byte>, command: byte, data: seq<byte>)
    requires FrameLayout(frame, command, data)
    ensures MakePacket(command, data) == frame
  {
    HeaderOf(frame, |data|);
    FooterOf(frame, data);
    Assemble(frame, command, data);
  }

  /** A frame laid out for a payload below 64 KiB decodes to its command and payload. */
  lemma ParseLayout(frame: seq<byte>, command: byte, data: seq<byte>)
    requires FrameLayout(frame, command, data) && |data| < 65536
    ensures Parse(frame) == Some(Packet(command, data))
  {
    ModBelow(|data|, 65536);
  }

  /** A frame that decodes is laid out for what it decodes to. */
  lemma ParseSomeLayout(frame: seq<byte>)
    requires Parse(frame).Some?
    ensures FrameLayout(frame, Parse(frame).value.command, Parse(frame).value.data)
    ensures |Parse(frame).value.data| < 65536
  {
    var n := frame[4] as int + 256 * (frame[5] as int);
    assert n < 65536 by {
      SplitLowHigh(frame[4] as int, frame[5] as int);
    }
    var data := Parse(frame).value.data;
    assert |data| == n;
    ModBelow(|data|, 65536);
  }

  /** Every frame the encoder builds for a payload below 64 KiB decodes to its command and payload. */
  lemma ParseMakePacket(command: byte, data: seq<byte>)
    requires |data| < 65536
    ensures Parse(MakePacket(command, data)) == Some(Packet(command, data))
  {
    MakePacketLayout(command, data);
    ParseLayout(MakePacket(command, data), command, data);
  }

  /** Every frame that decodes is exactly the encoder's output for what it decodes to. */
  lemma MakePacketParse(frame: seq<byte>)
    requires Parse(frame).Some?
    ensures MakePacket(Parse(frame).value.command, Parse(frame).value.data) == frame
  {
    var p := Parse(frame).value;
    ParseSomeLayout(frame);
    LayoutIsMakePacket(frame, p.command, p.data);
  }

  /**
   * Distinct commands or payloads give distinct frames, of any payload length:
   * even when the length field wraps, the frame's own length fixes the
   * payload's.
   */
  lemma MakePacketInjective(c1: byte, d1: seq<byte>, c2: byte, d2: seq<byte>)
    requires MakePacket(c1, d1) == MakePacket(c2, d2)
    ensures c1 == c2 && d1 == d2
  {
    assert |d1| == |d2|;
    MakePacketLayout(c1, d1);
    MakePacketLayout(c2, d2);
  }

  /**
   * The length field wraps: a payload of 64 KiB or more is announced with its
   * length modulo 65536, so its frame does not decode.
   */
  lemma LengthFieldWraps(command: byte, data: seq<byte>)
    requires |data| >= 65536
    ensures Parse(MakePacket(command, data)).None?
  {
    var frame := MakePacket(command, data);
    MakePacketLayout(command, data);
    var n := frame[4] as int + 256 * (frame[5] as int);
    assert n < 65536 by {
      SplitLowHigh(frame[4] as int, frame[5] as int);
    }
    assert |frame| != PacketLength(n);
  }

}
