/** The frame codec of the serial link (GateKeeperSDK/DataPacket.cs).
    A frame on the wire is
      [channel][size_hi][size_lo][payload ...][0x00][0x00]
    where size = |payload| + 5 counts header, payload and the two checksum bytes. */
module Packets {
  import opened Results
  import opened Bytes

  const HeaderSize: nat := 3
  const ChecksumSize: nat := 2
  /** The two checksum bytes written after every payload; never checked on read. */
  const ChecksumMsb: byte := 0
  const ChecksumLsb: byte := 0

  /** A DataPacket: a payload and the channel it travels on. */
  datatype Frame = Frame(payload: seq<byte>, channel: int)

  /** A frame read off the front of a byte stream, and the bytes after it. */
  datatype Decoded = Decoded(frame: Frame, rest: seq<byte>)

  /** getChannelByte: `channel & 0xff` on a two's-complement int is the Euclidean remainder. */
  function ChannelByte(channel: int): byte
  {
    (channel % 256) as byte
  }

  /** getMSB: `(byte)(size >> 8)`, the arithmetic shift then truncation to 8 bits. */
  function Msb(size: int): byte
  {
    ((size / 256) % 256) as byte
  }

  /** getLSB: `(byte)(size & 0xff)`. */
  function Lsb(size: int): byte
  {
    (size % 256) as byte
  }

  /** getPacketSize: the big-endian size field in header bytes 1 and 2. */
  function PacketSize(header: seq<byte>): int
    requires |header| >= HeaderSize
  {
    header[1] as int * 256 + header[2] as int
  }

  /** getPacketChannel: header byte 0. */
  function PacketChannel(header: seq<byte>): int
    requires |header| >= HeaderSize
  {
    header[0] as int
  }

  /** The header toPacketBytes puts in front of `data`. */
  function Header(data: seq<byte>, channel: int): seq<byte>
  {
    var size := |data| + HeaderSize + ChecksumSize;
    [ChannelByte(channel), Msb(size), Lsb(size)]
  }

  /** toPacketBytes: the bytes of one frame carrying `data` on `channel`. */
  function ToPacketBytes(data: seq<byte>, channel: int): (packet: seq<byte>)
    ensures |packet| == |data| + 5
    ensures packet[0] == ChannelByte(channel)
    ensures packet[1] == Msb(|data| + 5) && packet[2] == Lsb(|data| + 5)
    ensures packet[3..|data| + 3] == data
    ensures packet[|data| + 3] == 0 && packet[|data| + 4] == 0
  {
    Header(data, channel) + data + [ChecksumMsb, ChecksumLsb]
  }

  /** The size field reads back as the size modulo 2^16: exactly for every size a
      frame can announce, wrapped for larger ones. */
  lemma SizeFieldRoundTrip(size: nat, channel: byte)
    ensures PacketSize([channel, Msb(size), Lsb(size)]) == size % 65536
  {
    var q := size / 256;
    var l := size % 256;
    var qh := q / 256;
    var ql := q % 256;
    assert PacketSize([channel, Msb(size), Lsb(size)]) == 256 * ql + l;
    assert size == 65536 * qh + (256 * ql + l) by {
      assert size == 256 * q + l;
      assert q == 256 * qh + ql;
    }
    Mod65536(size, qh, 256 * ql + l);
  }

  /** The remainder modulo 2^16 of a quotient-remainder decomposition. */
  lemma Mod65536(a: int, q: int, r: int)
    requires a == 65536 * q + r && 0 <= r < 65536
    ensures a % 65536 == r
  {
  }

  /** build: read a 3-byte header, a payload of size - 5 bytes and 2 checksum bytes.
      Running out of bytes is an I/O failure; a size field below 5 makes the
      payload array length negative. */
  function Build(inbound: seq<byte>): (r: Result<Decoded>)
    ensures r.Ok? <==>
              |inbound| >= HeaderSize
              && PacketSize(inbound) >= HeaderSize + ChecksumSize
              && |inbound| >= PacketSize(inbound)
    ensures r.Ok? ==>
              && r.value.frame.channel == inbound[0] as int
              && HeaderSize + |r.value.frame.payload| + ChecksumSize == PacketSize(inbound)
              && r.value.frame.payload == inbound[HeaderSize..PacketSize(inbound) - ChecksumSize]
              && r.value.rest == inbound[PacketSize(inbound)..]
    ensures r.Err? ==> (r.fault == NegativePayload <==> |inbound| >= HeaderSize && PacketSize(inbound) < 5)
    ensures r.Err? ==> r.fault == IoFailure || r.fault == NegativePayload
  {
    if |inbound| < HeaderSize then Err(IoFailure)
    else
      var header := inbound[..HeaderSize];
      var packetSize := PacketSize(header);
      var channel := PacketChannel(header);
      var payloadSize := packetSize - (HeaderSize + ChecksumSize);
      if payloadSize < 0 then Err(NegativePayload)
      else if |inbound| < HeaderSize + payloadSize + ChecksumSize then Err(IoFailure)
      else
        var payload := inbound[HeaderSize..HeaderSize + payloadSize];
        Ok(Decoded(Frame(payload, channel), inbound[HeaderSize + payloadSize + ChecksumSize..]))
  }

  /** A frame that fits the 16-bit size field on a channel that fits a byte. */
  predicate WellFormed(f: Frame)
  {
    0 <= f.channel < 256 && |f.payload| + 5 < 65536
  }

  /** Decoding reads back whatever checksum bytes follow the payload without looking at them. */
  lemma DecodeIgnoresChecksum(data: seq<byte>, channel: int, x: byte, y: byte, rest: seq<byte>)
    requires |data| + 5 < 65536
    ensures Build(Header(data, channel) + data + [x, y] + rest)
            == Ok(Decoded(Frame(data, channel % 256), rest))
  {
    var s := Header(data, channel) + data + [x, y] + rest;
    SizeFieldRoundTrip(|data| + 5, ChannelByte(channel));
    assert s[..3] == Header(data, channel);
    assert PacketSize(s) == |data| + 5;
    assert s[3..3 + |data|] == data;
    assert s[|data| + 5..] == rest;
  }

  /** Round trip: decoding an encoded frame yields its payload and masked channel and
      consumes exactly |data| + 5 bytes. */
  lemma DecodeEncoded(data: seq<byte>, channel: int, rest: seq<byte>)
    requires |data| + 5 < 65536
    ensures Build(ToPacketBytes(data, channel) + rest)
            == Ok(Decoded(Frame(data, channel % 256), rest))
  {
    DecodeIgnoresChecksum(data, channel, ChecksumMsb, ChecksumLsb, rest);
    assert ToPacketBytes(data, channel) + rest
           == Header(data, channel) + data + [ChecksumMsb, ChecksumLsb] + rest;
  }

  /** A lone packet on a channel that fits a byte decodes to its frame with nothing left. */
  lemma DecodePacket(data: seq<byte>, channel: int)
    requires |data| + 5 < 65536 && 0 <= channel < 256
    ensures Build(ToPacketBytes(data, channel)) == Ok(Decoded(Frame(data, channel), []))
  {
    DecodeEncoded(data, channel, []);
    assert ToPacketBytes(data, channel) + [] == ToPacketBytes(data, channel);
  }

  /** Every successful decode is the decode of an encoded frame followed by the rest,
      up to the two checksum bytes. */
  lemma BuildInvertsEncoding(inbound: seq<byte>)
    requires Build(inbound).Ok?
    ensures var d := Build(inbound).value;
            var n := |d.frame.payload|;
            && WellFormed(d.frame)
            && inbound == ToPacketBytes(d.frame.payload, d.frame.channel)[..n + 3]
                          + inbound[n + 3..n + 5] + d.rest
  {
    var d := Build(inbound).value;
    var n := |d.frame.payload|;
    var size := PacketSize(inbound);
    SizeFieldRoundTrip(size, inbound[0]);
    assert Msb(size) == inbound[1] && Lsb(size) == inbound[2] by {
      assert size == inbound[1] as int * 256 + inbound[2] as int;
    }
    var p := ToPacketBytes(d.frame.payload, d.frame.channel);
    assert p[..n + 3] == inbound[..n + 3];
    assert inbound == inbound[..n + 3] + inbound[n + 3..n + 5] + inbound[n + 5..];
  }

  /** The bytes of a sequence of frames sent one after another. */
  function EncodeFrames(frames: seq<Frame>): seq<byte>
  {
    if |frames| == 0 then [] else ToPacketBytes(frames[0].payload, frames[0].channel) + EncodeFrames(frames[1..])
  }

  predicate AllWellFormed(frames: seq<Frame>)
  {
    forall i :: 0 <= i < |frames| ==> WellFormed(frames[i])
  }

  /** Concatenated frames decode in sequence: the first decode returns the first frame
      and leaves exactly the encoding of the others. */
  lemma DecodeFirstFrame(f: Frame, fs: seq<Frame>, rest: seq<byte>)
    requires WellFormed(f)
    ensures Build(EncodeFrames([f] + fs) + rest) == Ok(Decoded(f, EncodeFrames(fs) + rest))
  {
    var head := ToPacketBytes(f.payload, f.channel);
    var tail := EncodeFrames(fs);
    assert EncodeFrames([f] + fs) + rest == head + (tail + rest) by {
      assert ([f] + fs)[1..] == fs;
      assert EncodeFrames([f] + fs) == head + tail;
    }
    assert Build(head + (tail + rest)) == Ok(Decoded(Frame(f.payload, f.channel % 256), tail + rest)) by {
      DecodeEncoded(f.payload, f.channel, tail + rest);
    }
    assert Frame(f.payload, f.channel % 256) == f;
  }
}
