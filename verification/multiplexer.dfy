/** The channel multiplexer (GateKeeperSDK/GkMultiplexer.cs): a command channel and a
    data channel framed over one serial port. The port is a finite stream of inbound
    bytes and a log of the packets written, one entry per `Write`. */
module Multiplexing {
  import opened Results
  import opened Bytes
  import opened Packets
  import opened Helpers

  const MaximumPayloadSize: nat := 512
  const CommandChannel: int := 1
  const DataChannel: int := 2

  /** The serial port: bytes not yet read, packets written so far, and whether it is open. */
  datatype Port = Port(inbound: seq<byte>, written: seq<seq<byte>>, open: bool)

  /** A GkMultiplexer: the port it drives and its transfer progress counter. */
  datatype Mux = Mux(port: Port, transferSize: int)

  /** A multiplexer state after an operation, with the operation's value or exception. */
  datatype Step<+T> = Step(mux: Mux, result: Result<T>)

  /** The outcome of a download: the state, the bytes written to the sink, and the
      trailing command line or the exception. */
  datatype Transfer = Transfer(mux: Mux, sink: seq<byte>, result: Result<seq<byte>>)

  // ---------------------------------------------------------------- writing

  /** Write: frame `data` on `channel` and put the packet on the wire. */
  function Write(m: Mux, data: seq<byte>, channel: int): (r: Mux)
    ensures r.port.inbound == m.port.inbound && r.port.open == m.port.open
    ensures r.transferSize == m.transferSize
    ensures |r.port.written| == |m.port.written| + 1
    ensures r.port.written[..|m.port.written|] == m.port.written
    ensures |data| + 5 < 65536 ==>
              Build(r.port.written[|m.port.written|]) == Ok(Decoded(Frame(data, channel % 256), []))
  {
    var packet := ToPacketBytes(data, channel);
    assert |data| + 5 < 65536 ==> Build(packet) == Ok(Decoded(Frame(data, channel % 256), [])) by {
      if |data| + 5 < 65536 {
        DecodeEncoded(data, channel, []);
        assert packet + [] == packet;
      }
    }
    m.(port := m.port.(written := m.port.written + [packet]))
  }

  /** WriteToCommandChannel: exactly one packet, toPacketBytes(data, 1). */
  function WriteToCommandChannel(m: Mux, data: seq<byte>): (r: Mux)
    ensures r.port.written == m.port.written + [ToPacketBytes(data, CommandChannel)]
    ensures |data| + 5 < 65536 ==>
              Build(r.port.written[|m.port.written|]) == Ok(Decoded(Frame(data, CommandChannel), []))
    ensures r.port.inbound == m.port.inbound && r.port.open == m.port.open
    ensures r.transferSize == m.transferSize
  {
    assert |data| + 5 < 65536 ==> Build(ToPacketBytes(data, CommandChannel)) == Ok(Decoded(Frame(data, CommandChannel), [])) by {
      if |data| + 5 < 65536 {
        DecodePacket(data, CommandChannel);
      }
    }
    Write(m, data, CommandChannel)
  }

  /** WriteToDataChannel(byte[]): exactly one packet, toPacketBytes(data, 2). */
  function WriteToDataChannel(m: Mux, data: seq<byte>): (r: Mux)
    ensures r.port.written == m.port.written + [ToPacketBytes(data, DataChannel)]
    ensures |data| + 5 < 65536 ==>
              Build(r.port.written[|m.port.written|]) == Ok(Decoded(Frame(data, DataChannel), []))
    ensures r.port.inbound == m.port.inbound && r.port.open == m.port.open
    ensures r.transferSize == m.transferSize
  {
    assert |data| + 5 < 65536 ==> Build(ToPacketBytes(data, DataChannel)) == Ok(Decoded(Frame(data, DataChannel), [])) by {
      if |data| + 5 < 65536 {
        DecodePacket(data, DataChannel);
      }
    }
    Write(m, data, DataChannel)
  }

  /** A source stream as the results of its successive Read(buffer, 0, 512) calls;
      Read never returns more than it was asked for. Reading past the last entry
      returns 0 bytes, the end of the stream. */
  predicate ValidReads(answers: seq<seq<byte>>)
  {
    forall k :: 0 <= k < |answers| ==> |answers[k]| <= MaximumPayloadSize
  }

  /** How many reads come before the first empty one: the number of chunks uploaded. */
  function ChunkCount(answers: seq<seq<byte>>): (n: nat)
    ensures n <= |answers|
  {
    if |answers| == 0 || |answers[0]| == 0 then 0 else 1 + ChunkCount(answers[1..])
  }

  /** The chunk count stops exactly at the first empty read. */
  lemma {:induction false} ChunkCountStops(answers: seq<seq<byte>>)
    ensures forall k :: 0 <= k < ChunkCount(answers) ==> |answers[k]| > 0
    ensures ChunkCount(answers) < |answers| ==> |answers[ChunkCount(answers)]| == 0
  {
    if |answers| > 0 && |answers[0]| > 0 {
      ChunkCountStops(answers[1..]);
    }
  }

  /** The data-channel packets carrying each chunk in turn. */
  function DataPackets(chunks: seq<seq<byte>>): (ps: seq<seq<byte>>)
    ensures |ps| == |chunks|
  {
    if |chunks| == 0 then [] else [ToPacketBytes(chunks[0], DataChannel)] + DataPackets(chunks[1..])
  }

  /** The reused buffer after a read: the bytes read, then what the buffer held
      beyond them. */
  function Filled(read: seq<byte>, buffer: seq<byte>): (f: seq<byte>)
    requires |read| <= |buffer|
    ensures |f| == |buffer| && f[..|read|] == read
  {
    read + buffer[|read|..]
  }

  /** What one turn of the upload loop sends: a copyOf of the buffer when the read
      was short, the buffer itself when it was full. Either way, exactly the bytes
      read. */
  function Chunk(read: seq<byte>, buffer: seq<byte>): (c: seq<byte>)
    requires |read| <= |buffer|
    ensures c == read
  {
    var filled := Filled(read, buffer);
    if |read| < |filled| then CopyOf(filled, |read|)
    else
      assert filled == filled[..|read|];
      filled
  }

  /** The body of the upload loop: read into the reused 512-byte buffer, stop on an
      empty read, otherwise count a full buffer, send the chunk and read again. */
  function PumpChunks(m: Mux, answers: seq<seq<byte>>, buffer: seq<byte>): (r: Mux)
    requires ValidReads(answers) && |buffer| == MaximumPayloadSize
    ensures r.port.inbound == m.port.inbound && r.port.open == m.port.open
    decreases |answers|
  {
    if |answers| == 0 || |answers[0]| == 0 then m
    else
      var filled := Filled(answers[0], buffer);
      var counted := m.(transferSize := m.transferSize + |filled|);
      PumpChunks(WriteToDataChannel(counted, Chunk(answers[0], buffer)), answers[1..], filled)
  }

  /** The k-th data packet carries the k-th chunk. */
  lemma {:induction false} DataPacketsAt(chunks: seq<seq<byte>>, k: nat)
    requires k < |chunks|
    ensures DataPackets(chunks)[k] == ToPacketBytes(chunks[k], DataChannel)
  {
    if k > 0 {
      DataPacketsAt(chunks[1..], k - 1);
    }
  }

  /** One turn of the upload loop on a non-empty read sends exactly the bytes read. */
  lemma PumpChunksStep(m: Mux, answers: seq<seq<byte>>, buffer: seq<byte>)
    requires ValidReads(answers) && |buffer| == MaximumPayloadSize
    requires |answers| > 0 && |answers[0]| > 0
    ensures ValidReads(answers[1..])
    ensures PumpChunks(m, answers, buffer).port.written
            == PumpChunks(Write(m.(transferSize := m.transferSize + MaximumPayloadSize), answers[0], DataChannel),
                          answers[1..], Filled(answers[0], buffer)).port.written
  {
    assert ValidReads(answers[1..]) by {
      assert forall k :: 0 <= k < |answers| - 1 ==> answers[1..][k] == answers[k + 1];
    }
    var filled := Filled(answers[0], buffer);
    var counted := m.(transferSize := m.transferSize + |filled|);
    var sent := Write(m.(transferSize := m.transferSize + MaximumPayloadSize), answers[0], DataChannel);
    assert WriteToDataChannel(counted, Chunk(answers[0], buffer)) == sent;
    assert PumpChunks(m, answers, buffer) == PumpChunks(sent, answers[1..], filled);
  }

  /** The upload loop sends one data-channel packet per non-empty read, carrying
      exactly the bytes read, in order, and nothing after the first empty read. */
  lemma {:induction false} PumpChunksSends(m: Mux, answers: seq<seq<byte>>, buffer: seq<byte>)
    requires ValidReads(answers) && |buffer| == MaximumPayloadSize
    ensures PumpChunks(m, answers, buffer).port.written
            == m.port.written + DataPackets(answers[..ChunkCount(answers)])
    decreases |answers|
  {
    if |answers| > 0 && |answers[0]| > 0 {
      var filled := Filled(answers[0], buffer);
      var sent := Write(m.(transferSize := m.transferSize + MaximumPayloadSize), answers[0], DataChannel);
      var first := ToPacketBytes(answers[0], DataChannel);
      var later := DataPackets(answers[1..][..ChunkCount(answers[1..])]);
      calc {
        PumpChunks(m, answers, buffer).port.written;
        { PumpChunksStep(m, answers, buffer); }
        PumpChunks(sent, answers[1..], filled).port.written;
        { PumpChunksSends(sent, answers[1..], filled); }
        sent.port.written + later;
        (m.port.written + [first]) + later;
        m.port.written + ([first] + later);
        { FirstChunk(answers); }
        m.port.written + DataPackets(answers[..ChunkCount(answers)]);
      }
    }
  }

  /** The uploaded chunks of a stream whose first read is non-empty: that read, then
      the chunks of the rest. */
  lemma FirstChunk(answers: seq<seq<byte>>)
    requires |answers| > 0 && |answers[0]| > 0
    ensures DataPackets(answers[..ChunkCount(answers)])
            == [ToPacketBytes(answers[0], DataChannel)] + DataPackets(answers[1..][..ChunkCount(answers[1..])])
  {
    var c := ChunkCount(answers);
    assert c == 1 + ChunkCount(answers[1..]);
    var chunks := answers[..c];
    assert chunks[0] == answers[0];
    assert chunks[1..] == answers[1..][..c - 1];
    assert DataPackets(chunks) == [ToPacketBytes(chunks[0], DataChannel)] + DataPackets(chunks[1..]);
  }

  /** WriteToDataChannel(Stream): upload the stream in chunks of at most 512 bytes,
      one data-channel packet per non-empty read; the progress counter is back to 0
      when it returns. */
  function WriteStreamToDataChannel(m: Mux, answers: seq<seq<byte>>): (r: Mux)
    requires ValidReads(answers)
    ensures r.port.written == m.port.written + DataPackets(answers[..ChunkCount(answers)])
    ensures r.port.inbound == m.port.inbound && r.port.open == m.port.open
    ensures r.transferSize == 0
  {
    var buffer := seq(MaximumPayloadSize, _ => 0 as byte);
    var start := m.(transferSize := 0);
    PumpChunksSends(start, answers, buffer);
    PumpChunks(start, answers, buffer).(transferSize := 0)
  }

  /** All the bytes of a sequence of chunks. */
  function Flatten(chunks: seq<seq<byte>>): seq<byte>
  {
    if |chunks| == 0 then [] else chunks[0] + Flatten(chunks[1..])
  }

  /** The read results a MemoryStream over `contents` gives: full 512-byte chunks, then
      the remainder, then end of stream. */
  function MemoryStreamReads(contents: seq<byte>): (answers: seq<seq<byte>>)
    ensures ValidReads(answers)
    ensures Flatten(answers) == contents
    ensures ChunkCount(answers) == |answers|
    ensures forall k :: 0 <= k < |answers| - 1 ==> |answers[k]| == MaximumPayloadSize
    decreases |contents|
  {
    if |contents| == 0 then []
    else
      var n := if |contents| < MaximumPayloadSize then |contents| else MaximumPayloadSize;
      var answers := [contents[..n]] + MemoryStreamReads(contents[n..]);
      assert answers[1..] == MemoryStreamReads(contents[n..]);
      assert contents == contents[..n] + contents[n..];
      answers
  }

  /** Uploading a byte array sends data-channel packets whose payloads are 1 to 512
      bytes each and together are the array, in order. */
  lemma UploadFrames(m: Mux, contents: seq<byte>)
    ensures var answers := MemoryStreamReads(contents);
            var r := WriteStreamToDataChannel(m, answers);
            && r.port.written == m.port.written + DataPackets(answers)
            && Flatten(answers) == contents
            && forall k :: 0 <= k < |answers| ==>
                 && 1 <= |answers[k]| <= MaximumPayloadSize
                 && Build(DataPackets(answers)[k]) == Ok(Decoded(Frame(answers[k], DataChannel), []))
  {
    var answers := MemoryStreamReads(contents);
    assert WriteStreamToDataChannel(m, answers).port.written == m.port.written + DataPackets(answers) by {
      assert answers[..ChunkCount(answers)] == answers;
    }
    assert forall k :: 0 <= k < |answers| ==> |answers[k]| >= 1 by {
      ChunkCountStops(answers);
    }
    forall k | 0 <= k < |answers|
      ensures Build(DataPackets(answers)[k]) == Ok(Decoded(Frame(answers[k], DataChannel), []))
    {
      DataPacketDecodes(answers, k);
    }
  }

  /** The k-th data packet of chunks of at most 512 bytes decodes to the k-th chunk. */
  lemma DataPacketDecodes(chunks: seq<seq<byte>>, k: nat)
    requires k < |chunks| && |chunks[k]| <= MaximumPayloadSize
    ensures Build(DataPackets(chunks)[k]) == Ok(Decoded(Frame(chunks[k], DataChannel), []))
  {
    DataPacketsAt(chunks, k);
    DecodePacket(chunks[k], DataChannel);
  }


  // ---------------------------------------------------------------- line scanning

  /** CR LF starts at index i of p. */
  predicate CrlfAt(p: seq<byte>, i: int)
  {
    0 <= i && i + 1 < |p| && p[i] == CarriageReturn && p[i + 1] == LineFeed
  }

  ghost predicate HasCrlf(p: seq<byte>)
  {
    exists i :: CrlfAt(p, i)
  }

  /** The index of the first CR LF at or after i, or |p| when there is none. */
  function LineEndFrom(p: seq<byte>, i: nat): (k: nat)
    requires i <= |p|
    ensures i <= k <= |p|
    ensures k < |p| ==> CrlfAt(p, k)
    ensures forall j :: i <= j < k ==> !CrlfAt(p, j)
    ensures k == |p| ==> forall j :: i <= j ==> !CrlfAt(p, j)
    decreases |p| - i
  {
    if i + 1 >= |p| then |p|
    else if p[i] == CarriageReturn && p[i + 1] == LineFeed then i
    else LineEndFrom(p, i + 1)
  }

  function LineEnd(p: seq<byte>): nat
  {
    LineEndFrom(p, 0)
  }

  /** ContainsCrlf: some CR is immediately followed by LF. */
  function ContainsCrlf(p: seq<byte>): (b: bool)
    ensures b <==> HasCrlf(p)
  {
    LineEnd(p) < |p|
  }

  /** CopyUntilCrlf: append the payload up to its first CR LF, or all of it when there
      is none (a lone CR at the end is kept). */
  function CopyUntilCrlf(data: seq<byte>, bytes: seq<byte>): (r: seq<byte>)
    ensures |bytes| <= |r| <= |bytes| + |data| && r[..|bytes|] == bytes
    ensures r[|bytes|..] == data[..|r| - |bytes|]
    ensures forall j :: 0 <= j < |r| - |bytes| ==> !CrlfAt(data, j)
    ensures HasCrlf(data) ==> CrlfAt(data, |r| - |bytes|)
    ensures !HasCrlf(data) ==> r == bytes + data
  {
    bytes + data[..LineEnd(data)]
  }

  // ---------------------------------------------------------------- reading

  /** DataPacket.Builder.build against the port. A failed read leaves the port
      drained (the stream ran dry) or just past the header (negative payload size). */
  function ReadFrame(m: Mux): (s: Step<Frame>)
    ensures s.mux == m.(port := m.port.(inbound := s.mux.port.inbound))
    ensures |s.mux.port.inbound| <= |m.port.inbound|
    ensures s.result.Ok? ==> |s.mux.port.inbound| + 5 <= |m.port.inbound|
    ensures s.result.Ok? <==> Build(m.port.inbound).Ok?
    ensures s.result.Ok? ==> Build(m.port.inbound) == Ok(Decoded(s.result.value, s.mux.port.inbound))
    ensures s.result == Err(IoFailure) ==> s.mux.port.inbound == []
    ensures s.result == Err(NegativePayload) ==>
              |m.port.inbound| >= HeaderSize && s.mux.port.inbound == m.port.inbound[HeaderSize..]
  {
    match Build(m.port.inbound)
    case Ok(d) => Step(m.(port := m.port.(inbound := d.rest)), Ok(d.frame))
    case Err(e) =>
      var left := if e == NegativePayload then m.port.inbound[HeaderSize..] else [];
      Step(m.(port := m.port.(inbound := left)), Err(e))
  }

  /** ReadCommandLine: gather whole payloads of frames without CR LF, whatever their
      channel, until a frame with CR LF, and append its part before the CR LF. */
  function ReadCommandLine(m: Mux, packet: Frame, acc: seq<byte>): (s: Step<seq<byte>>)
    ensures s.mux == m.(port := m.port.(inbound := s.mux.port.inbound))
    ensures |s.mux.port.inbound| <= |m.port.inbound|
    decreases |m.port.inbound|
  {
    if ContainsCrlf(packet.payload) then Step(m, Ok(CopyUntilCrlf(packet.payload, acc)))
    else
      var line := CopyUntilCrlf(packet.payload, acc);
      var s := ReadFrame(m);
      match s.result
      case Err(e) => Step(s.mux, Err(e))
      case Ok(next) => ReadCommandLine(s.mux, next, line)
  }

  /** ReadCommandChannelLine: read a frame and the command line it starts. */
  function ReadCommandChannelLine(m: Mux): (s: Step<seq<byte>>)
    ensures s.mux == m.(port := m.port.(inbound := s.mux.port.inbound))
    ensures s.result.Ok? ==> |s.mux.port.inbound| + 5 <= |m.port.inbound|
    ensures Build(m.port.inbound).Err? ==> s.result == Err(Build(m.port.inbound).fault)
  {
    var s := ReadFrame(m);
    match s.result
    case Err(e) => Step(s.mux, Err(e))
    case Ok(packet) => ReadCommandLine(s.mux, packet, [])
  }

  /** Cleanup: close the port. An IOException from Close is swallowed, so Cleanup
      itself never fails. */
  function Cleanup(m: Mux): (r: Mux)
    ensures !r.port.open
    ensures r.port.inbound == m.port.inbound && r.port.written == m.port.written
    ensures r.transferSize == m.transferSize
  {
    m.(port := m.port.(open := false))
  }

  /** The loop of ReadDataChannelToFile: while the frame is on the data channel,
      write its payload to the sink and read the next; the first other frame starts
      the trailing command line. */
  function DrainData(m: Mux, packet: Frame, sink: seq<byte>): (t: Transfer)
    ensures t.mux.port.written == m.port.written && t.mux.port.open == m.port.open
    ensures |t.sink| >= |sink| && t.sink[..|sink|] == sink
    decreases |m.port.inbound|
  {
    if packet.channel == DataChannel then
      var counted := m.(transferSize := m.transferSize + |packet.payload|);
      var written := sink + packet.payload;
      var s := ReadFrame(counted);
      match s.result
      case Err(e) => Transfer(s.mux, written, Err(e))
      case Ok(next) =>
        var t := DrainData(s.mux, next, written);
        assert t.sink[..|sink|] == t.sink[..|written|][..|sink|];
        t
    else
      var s := ReadCommandLine(m, packet, []);
      Transfer(s.mux, sink, s.result)
  }

  /** ReadDataChannelToFile: stream the data-channel frames into the sink and return
      the command line that follows them. An IOException closes the port before it
      propagates; the progress counter is 0 afterwards whatever happened. */
  function ReadDataChannelToFile(m: Mux, sink: seq<byte>): (t: Transfer)
    ensures t.mux.transferSize == 0
    ensures t.mux.port.written == m.port.written
    ensures t.result == Err(IoFailure) ==> !t.mux.port.open
    ensures t.result != Err(IoFailure) ==> t.mux.port.open == m.port.open
    ensures |t.sink| >= |sink| && t.sink[..|sink|] == sink
  {
    var s := ReadFrame(m);
    var t := match s.result
      case Err(e) => Transfer(s.mux, sink, Err(e))
      case Ok(packet) => DrainData(s.mux.(transferSize := 0), packet, sink);
    var u := if t.result == Err(IoFailure) then t.(mux := Cleanup(t.mux)) else t;
    u.(mux := u.mux.(transferSize := 0))
  }

  // ---------------------------------------------------------------- frame-level view

  /** The payloads of frames, one after another. */
  function Payloads(frames: seq<Frame>): seq<byte>
  {
    if |frames| == 0 then [] else frames[0].payload + Payloads(frames[1..])
  }

  /** The index of the first frame whose payload holds CR LF, or |frames|. */
  function CrlfFrame(frames: seq<Frame>): (j: nat)
    ensures j <= |frames|
  {
    if |frames| == 0 then 0
    else if ContainsCrlf(frames[0].payload) then 0
    else 1 + CrlfFrame(frames[1..])
  }

  /** How many leading frames travel on the data channel. */
  function DataRun(frames: seq<Frame>): (k: nat)
    ensures k <= |frames|
  {
    if |frames| == 0 || frames[0].channel != DataChannel then 0 else 1 + DataRun(frames[1..])
  }

  /** The command line that frames spell out: every payload before the first frame
      with CR LF, then that frame's payload up to its first CR LF. */
  function LineOf(frames: seq<Frame>): seq<byte>
    requires CrlfFrame(frames) < |frames|
  {
    var j := CrlfFrame(frames);
    Payloads(frames[..j]) + frames[j].payload[..LineEnd(frames[j].payload)]
  }

  /** A first frame with CR LF ends the line at once. */
  lemma LineOfFirst(frames: seq<Frame>)
    requires |frames| > 0 && ContainsCrlf(frames[0].payload)
    ensures CrlfFrame(frames) == 0
    ensures LineOf(frames) == frames[0].payload[..LineEnd(frames[0].payload)]
  {
    var line := frames[0].payload[..LineEnd(frames[0].payload)];
    assert CrlfFrame(frames) == 0;
    assert Payloads(frames[..0]) == [] by {
      assert frames[..0] == [];
    }
    assert LineOf(frames) == [] + line;
    assert [] + line == line;
  }

  /** A first frame without CR LF contributes its whole payload to the line. */
  lemma LineOfCons(frames: seq<Frame>)
    requires |frames| > 0 && !ContainsCrlf(frames[0].payload) && CrlfFrame(frames) < |frames|
    ensures CrlfFrame(frames) == 1 + CrlfFrame(frames[1..])
    ensures LineOf(frames) == frames[0].payload + LineOf(frames[1..])
  {
    assert [frames[0]] + frames[1..] == frames;
    LineOfShift(frames[0], frames[1..]);
  }

  /** When the line ends past the first frame, the first frame's payload leads it. */
  lemma LineOfShift(p: Frame, frames: seq<Frame>)
    requires CrlfFrame(frames) < |frames| && CrlfFrame([p] + frames) == 1 + CrlfFrame(frames)
    ensures LineOf([p] + frames) == p.payload + LineOf(frames)
  {
    var all := [p] + frames;
    var j := CrlfFrame(frames);
    var tail := frames[j].payload[..LineEnd(frames[j].payload)];
    var x := Payloads(frames[..j]);
    assert all[j + 1] == frames[j] by {
      assert all[1..] == frames;
      assert all[j + 1] == all[1..][j];
    }
    assert LineOf(all) == Payloads(all[..j + 1]) + tail by {
      assert CrlfFrame(all) == j + 1;
    }
    assert Payloads(all[..j + 1]) == p.payload + x by {
      PayloadsCons(p, frames, j);
    }
    assert LineOf(frames) == x + tail;
    Regroup(LineOf(all), Payloads(all[..j + 1]), tail, p.payload, x, LineOf(frames));
  }

  /** Regrouping a concatenation of three byte strings. */
  lemma Regroup(whole: seq<byte>, front: seq<byte>, tail: seq<byte>, head: seq<byte>, x: seq<byte>, line: seq<byte>)
    requires whole == front + tail && front == head + x && line == x + tail
    ensures whole == head + line
  {
  }

  /** A stream that starts with an encoded well-formed frame decodes to that frame. */
  lemma DecodeStream(inbound: seq<byte>, f: Frame, tail: seq<byte>)
    requires WellFormed(f) && inbound == ToPacketBytes(f.payload, f.channel) + tail
    ensures Build(inbound) == Ok(Decoded(f, tail))
  {
    DecodeEncoded(f.payload, f.channel, tail);
  }

  /** The payloads of a frame and the frames after it. */
  lemma PayloadsCons(f: Frame, fs: seq<Frame>, n: nat)
    requires n <= |fs|
    ensures Payloads(([f] + fs)[..n + 1]) == f.payload + Payloads(fs[..n])
  {
    assert ([f] + fs)[..n + 1][1..] == fs[..n];
  }

  /** ReadCommandLine on a frame with CR LF reads nothing more. */
  lemma ReadCommandLineDone(m: Mux, p: Frame, acc: seq<byte>)
    requires ContainsCrlf(p.payload)
    ensures ReadCommandLine(m, p, acc) == Step(m, Ok(acc + p.payload[..LineEnd(p.payload)]))
  {
  }

  /** ReadCommandLine on a frame without CR LF keeps its payload and reads on. */
  lemma ReadCommandLineMore(m: Mux, p: Frame, acc: seq<byte>)
    requires !ContainsCrlf(p.payload) && ReadFrame(m).result.Ok?
    ensures ReadCommandLine(m, p, acc)
            == ReadCommandLine(ReadFrame(m).mux, ReadFrame(m).result.value, acc + p.payload)
  {
  }

  /** ReadFrame returns what Build decodes and leaves the bytes after it. */
  lemma ReadFrameOk(m: Mux, d: Decoded)
    requires Build(m.port.inbound) == Ok(d)
    ensures ReadFrame(m) == Step(m.(port := m.port.(inbound := d.rest)), Ok(d.frame))
  {
  }

  /** The frames after the first of well-formed frames are well-formed. */
  lemma AllWellFormedTail(frames: seq<Frame>)
    requires |frames| > 0 && AllWellFormed(frames)
    ensures AllWellFormed(frames[1..])
  {
    assert forall i :: 0 <= i < |frames| - 1 ==> frames[1..][i] == frames[i + 1];
  }

  /** Reading the next frame off a stream of encoded frames returns the first frame
      and leaves the encoding of the others. */
  lemma ReadFrameFrames(m: Mux, frames: seq<Frame>, rest: seq<byte>)
    requires |frames| > 0 && AllWellFormed(frames)
    requires m.port.inbound == EncodeFrames(frames) + rest
    ensures ReadFrame(m) == Step(m.(port := m.port.(inbound := EncodeFrames(frames[1..]) + rest)), Ok(frames[0]))
    ensures AllWellFormed(frames[1..])
  {
    var tail := EncodeFrames(frames[1..]) + rest;
    var head := ToPacketBytes(frames[0].payload, frames[0].channel);
    assert m.port.inbound == head + tail by {
      assert EncodeFrames(frames) == head + EncodeFrames(frames[1..]);
      Regroup(m.port.inbound, EncodeFrames(frames), rest, head, EncodeFrames(frames[1..]), tail);
    }
    DecodeStream(m.port.inbound, frames[0], tail);
    ReadFrameOk(m, Decoded(frames[0], tail));
    AllWellFormedTail(frames);
  }

  /** ReadCommandLine over encoded frames gathers the line the frames spell out,
      whatever their channels, and consumes exactly the frames up to and including
      the one that ends the line. The first frame has already been read. */
  lemma {:induction false} ReadCommandLineFrames(m: Mux, frames: seq<Frame>, rest: seq<byte>, acc: seq<byte>)
    requires |frames| > 0 && AllWellFormed(frames[1..])
    requires m.port.inbound == EncodeFrames(frames[1..]) + rest
    requires CrlfFrame(frames) < |frames|
    ensures var s := ReadCommandLine(m, frames[0], acc);
            && s.result == Ok(acc + LineOf(frames))
            && s.mux.port.inbound == EncodeFrames(frames[CrlfFrame(frames) + 1..]) + rest
    decreases |frames|
  {
    if ContainsCrlf(frames[0].payload) {
      ReadCommandLineDone(m, frames[0], acc);
      LineOfFirst(frames);
    } else {
      LineOfCons(frames);
      var tail := frames[1..];
      ReadFrameFrames(m, tail, rest);
      ReadCommandLineMore(m, frames[0], acc);
      var next := m.(port := m.port.(inbound := EncodeFrames(tail[1..]) + rest));
      var line := acc + frames[0].payload;
      ReadCommandLineFrames(next, tail, rest, line);
      assert tail[CrlfFrame(tail) + 1..] == frames[CrlfFrame(frames) + 1..];
      Regroup(line + LineOf(tail), line, LineOf(tail), acc, frames[0].payload, LineOf(frames));
    }
  }

  /** Reading a command line off a stream of encoded frames returns the line they
      spell out and leaves the frames after the one that ended it. */
  lemma ReadCommandChannelLineFrames(m: Mux, frames: seq<Frame>, rest: seq<byte>)
    requires AllWellFormed(frames)
    requires m.port.inbound == EncodeFrames(frames) + rest
    requires CrlfFrame(frames) < |frames|
    ensures var s := ReadCommandChannelLine(m);
            && s.result == Ok(LineOf(frames))
            && s.mux.port.inbound == EncodeFrames(frames[CrlfFrame(frames) + 1..]) + rest
            && s.mux.port.written == m.port.written
  {
    ReadFrameFrames(m, frames, rest);
    var next := m.(port := m.port.(inbound := EncodeFrames(frames[1..]) + rest));
    ReadCommandLineFrames(next, frames, rest, []);
    assert [] + LineOf(frames) == LineOf(frames);
  }

  /** The loop of ReadDataChannelToFile on a frame of another channel hands it to
      ReadCommandLine. */
  lemma DrainDataDone(m: Mux, p: Frame, sink: seq<byte>)
    requires p.channel != DataChannel
    ensures var s := ReadCommandLine(m, p, []);
            DrainData(m, p, sink) == Transfer(s.mux, sink, s.result)
  {
  }

  /** The loop of ReadDataChannelToFile on a data frame stores its payload and reads on. */
  lemma DrainDataMore(m: Mux, p: Frame, sink: seq<byte>)
    requires p.channel == DataChannel
    requires ReadFrame(m.(transferSize := m.transferSize + |p.payload|)).result.Ok?
    ensures var s := ReadFrame(m.(transferSize := m.transferSize + |p.payload|));
            DrainData(m, p, sink) == DrainData(s.mux, s.result.value, sink + p.payload)
  {
  }

  /** The data frames at the head of a stream and the command line after them. */
  predicate DownloadReply(frames: seq<Frame>)
  {
    DataRun(frames) < |frames| && CrlfFrame(frames[DataRun(frames)..]) < |frames| - DataRun(frames)
  }

  /** The index just past the frame that ends the command line after the data frames. */
  function ReplyEnd(frames: seq<Frame>): (e: nat)
    requires DownloadReply(frames)
    ensures e <= |frames|
  {
    DataRun(frames) + CrlfFrame(frames[DataRun(frames)..]) + 1
  }

  /** Skipping one data frame at the head of a download reply. */
  lemma DownloadReplyTail(frames: seq<Frame>)
    requires |frames| > 0 && frames[0].channel == DataChannel && DownloadReply(frames)
    ensures DataRun(frames) == 1 + DataRun(frames[1..])
    ensures frames[1..][DataRun(frames[1..])..] == frames[DataRun(frames)..]
    ensures DownloadReply(frames[1..]) && ReplyEnd(frames) == 1 + ReplyEnd(frames[1..])
    ensures frames[1..][ReplyEnd(frames[1..])..] == frames[ReplyEnd(frames)..]
  {
  }

  /** What a transfer over a download reply holds: the payloads of the leading data
      frames after `sink`, the command line after them, and the frames after that
      line still unread. */
  predicate DrainedReply(t: Transfer, frames: seq<Frame>, rest: seq<byte>, sink: seq<byte>)
    requires DownloadReply(frames)
  {
    var k := DataRun(frames);
    && t.sink == sink + Payloads(frames[..k])
    && t.result == Ok(LineOf(frames[k..]))
    && t.mux.port.inbound == EncodeFrames(frames[ReplyEnd(frames)..]) + rest
  }

  /** The result DrainData gives on encoded frames whose first frame has been read. */
  predicate DrainsTo(m: Mux, frames: seq<Frame>, rest: seq<byte>, sink: seq<byte>)
    requires |frames| > 0 && DownloadReply(frames)
  {
    DrainedReply(DrainData(m, frames[0], sink), frames, rest, sink)
  }

  /** The loop of ReadDataChannelToFile over encoded frames stores the payloads of the
      leading data frames, in order, and returns the command line after them. The
      first frame has already been read. */
  lemma {:induction false} DrainDataFrames(m: Mux, frames: seq<Frame>, rest: seq<byte>, sink: seq<byte>)
    requires |frames| > 0 && AllWellFormed(frames[1..])
    requires m.port.inbound == EncodeFrames(frames[1..]) + rest
    requires DownloadReply(frames)
    ensures DrainsTo(m, frames, rest, sink)
    decreases |frames|
  {
    if frames[0].channel != DataChannel {
      DrainDataCommand(m, frames, rest, sink);
    } else {
      var tail := frames[1..];
      var counted := m.(transferSize := m.transferSize + |frames[0].payload|);
      DownloadReplyTail(frames);
      ReadFrameFrames(counted, tail, rest);
      var next := counted.(port := counted.port.(inbound := EncodeFrames(tail[1..]) + rest));
      DrainDataFrames(next, tail, rest, sink + frames[0].payload);
      DrainDataStep(m, frames, rest, sink);
    }
  }

  /** The loop meets a command frame first: no data, just the command line. */
  lemma DrainDataCommand(m: Mux, frames: seq<Frame>, rest: seq<byte>, sink: seq<byte>)
    requires |frames| > 0 && AllWellFormed(frames[1..])
    requires m.port.inbound == EncodeFrames(frames[1..]) + rest
    requires DownloadReply(frames) && frames[0].channel != DataChannel
    ensures DrainsTo(m, frames, rest, sink)
  {
    var s := ReadCommandLine(m, frames[0], []);
    assert DrainData(m, frames[0], sink) == Transfer(s.mux, sink, s.result) by {
      DrainDataDone(m, frames[0], sink);
    }
    assert s.result == Ok(LineOf(frames))
           && s.mux.port.inbound == EncodeFrames(frames[CrlfFrame(frames) + 1..]) + rest by {
      ReadCommandLineFrames(m, frames, rest, []);
      assert [] + LineOf(frames) == LineOf(frames);
    }
    CommandReply(Transfer(s.mux, sink, s.result), frames, rest, sink);
  }

  /** A command frame first: the sink is unchanged and the line is that of all frames. */
  lemma CommandReply(t: Transfer, frames: seq<Frame>, rest: seq<byte>, sink: seq<byte>)
    requires |frames| > 0 && frames[0].channel != DataChannel && DownloadReply(frames)
    requires t.sink == sink && t.result == Ok(LineOf(frames))
    requires t.mux.port.inbound == EncodeFrames(frames[CrlfFrame(frames) + 1..]) + rest
    ensures DrainedReply(t, frames, rest, sink)
  {
    assert DataRun(frames) == 0 && frames[0..] == frames;
    assert sink + Payloads(frames[..0]) == sink by {
      assert frames[..0] == [];
    }
  }

  /** The loop meets a data frame first: its payload goes to the sink ahead of what
      the rest of the loop stores. */
  lemma DrainDataStep(m: Mux, frames: seq<Frame>, rest: seq<byte>, sink: seq<byte>)
    requires |frames| > 1 && AllWellFormed(frames[1..])
    requires m.port.inbound == EncodeFrames(frames[1..]) + rest
    requires DownloadReply(frames) && frames[0].channel == DataChannel
    requires DownloadReply(frames[1..])
    requires var counted := m.(transferSize := m.transferSize + |frames[0].payload|);
             var next := counted.(port := counted.port.(inbound := EncodeFrames(frames[2..]) + rest));
             DrainsTo(next, frames[1..], rest, sink + frames[0].payload)
    ensures DrainsTo(m, frames, rest, sink)
  {
    var tail := frames[1..];
    var counted := m.(transferSize := m.transferSize + |frames[0].payload|);
    var next := counted.(port := counted.port.(inbound := EncodeFrames(frames[2..]) + rest));
    var stored := sink + frames[0].payload;
    assert DrainData(m, frames[0], sink) == DrainData(next, tail[0], stored) by {
      ReadFrameFrames(counted, tail, rest);
      assert tail[1..] == frames[2..];
      DrainDataMore(m, frames[0], sink);
    }
    DataReply(DrainData(next, tail[0], stored), frames, rest, sink);
  }

  /** A data frame first: what the transfer holds for the other frames, with the first
      payload stored ahead, is what it holds for all of them. */
  lemma DataReply(t: Transfer, frames: seq<Frame>, rest: seq<byte>, sink: seq<byte>)
    requires |frames| > 1 && frames[0].channel == DataChannel && DownloadReply(frames)
    requires DownloadReply(frames[1..])
    requires DrainedReply(t, frames[1..], rest, sink + frames[0].payload)
    ensures DrainedReply(t, frames, rest, sink)
  {
    var tail := frames[1..];
    var stored := sink + frames[0].payload;
    var k := DataRun(frames);
    assert k == 1 + DataRun(tail) && tail[DataRun(tail)..] == frames[k..]
           && tail[ReplyEnd(tail)..] == frames[ReplyEnd(frames)..] by {
      DownloadReplyTail(frames);
    }
    assert stored + Payloads(tail[..k - 1]) == sink + Payloads(frames[..k]) by {
      assert [frames[0]] + tail == frames;
      PayloadsCons(frames[0], tail, k - 1);
      Regroup(stored + Payloads(tail[..k - 1]), stored, Payloads(tail[..k - 1]), sink,
              frames[0].payload, Payloads(frames[..k]));
    }
  }

  /** Downloading over encoded frames: the sink receives the payloads of the leading
      data frames, in order, the command line after them is returned, the frames that
      follow stay unread, and the progress counter ends at 0. */
  lemma DownloadFrames(m: Mux, frames: seq<Frame>, rest: seq<byte>, sink: seq<byte>)
    requires AllWellFormed(frames)
    requires m.port.inbound == EncodeFrames(frames) + rest
    requires DownloadReply(frames)
    ensures var t := ReadDataChannelToFile(m, sink);
            var k := DataRun(frames);
            && t.sink == sink + Payloads(frames[..k])
            && t.result == Ok(LineOf(frames[k..]))
            && t.mux.port.inbound == EncodeFrames(frames[ReplyEnd(frames)..]) + rest
            && t.mux.port.open == m.port.open
            && t.mux.transferSize == 0
  {
    ReadFrameFrames(m, frames, rest);
    var next := m.(port := m.port.(inbound := EncodeFrames(frames[1..]) + rest));
    DrainDataFrames(next.(transferSize := 0), frames, rest, sink);
    assert DrainsTo(next.(transferSize := 0), frames, rest, sink);
  }

  /** When the frames run out before any of them ends the line, ReadCommandLine
      fails with an I/O error. */
  lemma {:induction false} ReadCommandLineRunsDry(m: Mux, frames: seq<Frame>, acc: seq<byte>)
    requires |frames| > 0 && AllWellFormed(frames[1..])
    requires m.port.inbound == EncodeFrames(frames[1..])
    requires CrlfFrame(frames) == |frames|
    ensures ReadCommandLine(m, frames[0], acc).result == Err(IoFailure)
    decreases |frames|
  {
    var tail := frames[1..];
    assert [frames[0]] + tail == frames;
    assert CrlfFrame(tail) == |tail|;
    if |tail| == 0 {
      assert m.port.inbound == [];
    } else {
      ReadFrameFrames(m, tail, []);
      assert EncodeFrames(tail) + [] == EncodeFrames(tail);
      assert EncodeFrames(tail[1..]) + [] == EncodeFrames(tail[1..]);
      ReadCommandLineMore(m, frames[0], acc);
      ReadCommandLineRunsDry(ReadFrame(m).mux, tail, acc + frames[0].payload);
    }
  }

  /** A reply whose line never ends before the connection goes quiet makes the
      command read fail with an I/O error. */
  lemma ReadCommandChannelLineRunsDry(m: Mux, frames: seq<Frame>)
    requires AllWellFormed(frames)
    requires m.port.inbound == EncodeFrames(frames)
    requires CrlfFrame(frames) == |frames|
    ensures ReadCommandChannelLine(m).result == Err(IoFailure)
  {
    if |frames| > 0 {
      ReadFrameFrames(m, frames, []);
      assert EncodeFrames(frames) + [] == EncodeFrames(frames);
      assert EncodeFrames(frames[1..]) + [] == EncodeFrames(frames[1..]);
      ReadCommandLineRunsDry(ReadFrame(m).mux, frames, []);
    }
  }

  /** CR and LF in different frames do not end the line: frames "A\r" and "\nB\r\n"
      read as the line "A\r\nB". */
  lemma SplitCrlfNotRecognised(m: Mux)
    requires m.port.inbound == EncodeFrames([Frame([65, 13], CommandChannel), Frame([10, 66, 13, 10], CommandChannel)])
    ensures ReadCommandChannelLine(m).result == Ok([65, 13, 10, 66])
  {
    var f0 := Frame([65, 13], CommandChannel);
    var f1 := Frame([10, 66, 13, 10], CommandChannel);
    var frames := [f0, f1];
    assert !ContainsCrlf(f0.payload);
    assert LineEnd(f1.payload) == 2;
    assert frames[1..] == [f1];
    assert CrlfFrame(frames) == 1;
    assert m.port.inbound == EncodeFrames(frames) + [];
    ReadCommandChannelLineFrames(m, frames, []);
    assert frames[..1] == [f0];
    assert Payloads([f0]) == [65, 13] by {
      assert [f0][1..] == [];
    }
    assert frames[1].payload[..2] == [10, 66];
    assert LineOf(frames) == [65, 13] + [10, 66];
    assert ReadCommandChannelLine(m).result == Ok(LineOf(frames));
    assert LineOf(frames) == [65, 13, 10, 66];
  }
}
