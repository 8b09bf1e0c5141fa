/** The card client (GateKeeperSDK/Card.cs): FTP-like text commands over the command
    channel of the multiplexer, status-code gating and the data-channel transfers of
    LIST, RETR, MLST and STOR. The connection is the multiplexer being present or not;
    the serial port it drives outlives it, so its write log stays observable. */
module Cards {
  import opened Results
  import opened Bytes
  import opened Decimal
  import opened StringUtils
  import opened Packets
  import opened Multiplexing
  import opened Responses
  import opened Timestamps

  const ListVerb: string := "LIST"
  const StoreVerb: string := "STOR"
  const MakeDirectoryVerb: string := "MKD"
  const RetrieveVerb: string := "RETR"
  const ListEntryVerb: string := "MLST"
  const StampVerb: string := "SRFT"
  const DeleteVerb: string := "DELE"
  const RemoveDirectoryVerb: string := "RMD"

  /** Every card path is sent below this directory. */
  const DefaultPath: string := "/apps/vault/data/"

  /** "File status okay; about to open data connection." */
  const ReadyToSend: int := 150
  /** "Closing data connection; requested file action successful." */
  const TransferComplete: int := 226

  /** A Card: the multiplexer (`connected` is false once it has been dropped). */
  datatype Card = Card(link: Mux, connected: bool)

  /** The card after a public operation, with its Response or the exception thrown. */
  datatype Reply = Reply(card: Card, result: Result<Response>)

  // ---------------------------------------------------------------- command text

  /** The text of the optional argument array: null is "", otherwise the arguments
      joined by single spaces. */
  function ArgumentText(arguments: Option<seq<string>>): string
  {
    match arguments
    case None => ""
    case Some(a) => Join(a, " ")
  }

  /** The words the arguments contribute to a command: none when they join to "". */
  function ArgumentWords(arguments: Option<seq<string>>): seq<string>
  {
    if ArgumentText(arguments) == "" then [] else arguments.value
  }

  /** BuildCommandString: the verb, the arguments if they join to anything, and the
      card path below the default directory, separated by single spaces. */
  function BuildCommandString(verb: string, cardPath: string, arguments: Option<seq<string>>): string
  {
    var argumentsString := ArgumentText(arguments);
    if |argumentsString| == 0 then verb + " " + DefaultPath + cardPath
    else verb + " " + argumentsString + " " + DefaultPath + cardPath
  }

  /** With space-free verb, path and arguments, the command splits on spaces into the
      verb, the argument words and the prefixed path: no argument is lost or merged,
      and arguments that join to "" leave no trace. */
  lemma CommandWords(verb: string, cardPath: string, arguments: Option<seq<string>>)
    requires NoneOf(verb, {' '}) && NoneOf(cardPath, {' '})
    requires arguments.Some? ==> forall i :: 0 <= i < |arguments.value| ==> NoneOf(arguments.value[i], {' '})
    ensures Split(BuildCommandString(verb, cardPath, arguments), {' '})
            == [verb] + ArgumentWords(arguments) + [DefaultPath + cardPath]
  {
    var path := DefaultPath + cardPath;
    assert NoneOf(path, {' '}) by {
      assert forall i :: 0 <= i < |DefaultPath| ==> path[i] == DefaultPath[i];
      assert forall i :: |DefaultPath| <= i < |path| ==> path[i] == cardPath[i - |DefaultPath|];
    }
    var words := [verb] + ArgumentWords(arguments) + [path];
    CommandJoin(verb, cardPath, arguments);
    JoinThenSplit(words, ' ');
  }

  /** The command is the verb, the argument words and the prefixed path joined by
      single spaces. */
  lemma CommandJoin(verb: string, cardPath: string, arguments: Option<seq<string>>)
    ensures BuildCommandString(verb, cardPath, arguments)
            == Join([verb] + ArgumentWords(arguments) + [DefaultPath + cardPath], " ")
  {
    var path := DefaultPath + cardPath;
    var words := [verb] + ArgumentWords(arguments) + [path];
    var cmd := BuildCommandString(verb, cardPath, arguments);
    if ArgumentText(arguments) == "" {
      JoinCons(verb, [path], [' ']);
      assert words == [verb] + [path];
      assert cmd == verb + " " + path;
    } else {
      var a := arguments.value;
      JoinCons(verb, a, [' ']);
      JoinSnoc([verb] + a, path, [' ']);
      assert words == [verb] + a + [path];
      assert cmd == verb + " " + Join(a, " ") + " " + path;
    }
  }

  /** GetCommandBytes: the command in ASCII, then CR LF. */
  function CommandBytes(cmd: string): (bs: seq<byte>)
    ensures |bs| == |cmd| + 2
    ensures bs[..|cmd|] == AsciiBytes(cmd)
    ensures bs[|cmd|] == CarriageReturn && bs[|cmd| + 1] == LineFeed
  {
    AsciiBytesAppend(cmd, "\r\n");
    AsciiBytes(cmd + "\r\n")
  }

  /** The packet SendCommand writes for a command. */
  function CommandPacket(cmd: string): seq<byte>
  {
    ToPacketBytes(CommandBytes(cmd), CommandChannel)
  }

  /** A command without CR ends its line exactly at the CR LF GetCommandBytes adds. */
  lemma CommandLineEnd(cmd: string)
    requires NoneOf(cmd, {'\r'})
    ensures ContainsCrlf(CommandBytes(cmd)) && LineEnd(CommandBytes(cmd)) == |cmd|
  {
    var bs := CommandBytes(cmd);
    assert CrlfAt(bs, |cmd|);
    forall j | 0 <= j < |cmd|
      ensures !CrlfAt(bs, j)
    {
      assert bs[j] == bs[..|cmd|][j] == AsciiByte(cmd[j]);
    }
  }

  /** The one frame SendCommand writes for a command without CR: it is well formed
      and encodes to the command packet alone. */
  lemma CommandFrame(cmd: string)
    requires |cmd| + 7 < 65536
    ensures var fs := [Frame(CommandBytes(cmd), CommandChannel)];
            && AllWellFormed(fs) && EncodeFrames(fs) == CommandPacket(cmd)
            && EncodeFrames(fs[1..]) == []
  {
    var fs := [Frame(CommandBytes(cmd), CommandChannel)];
    assert fs[1..] == [];
    assert EncodeFrames(fs) == CommandPacket(cmd) + [];
    assert WellFormed(fs[0]);
  }

  /** That frame carries the command's line. */
  lemma CommandFrameLine(cmd: string)
    requires NoneOf(cmd, {'\r'})
    ensures var fs := [Frame(CommandBytes(cmd), CommandChannel)];
            CrlfFrame(fs) == 0 && LineOf(fs) == AsciiBytes(cmd)
  {
    var p := CommandBytes(cmd);
    CommandLineEnd(cmd);
    LineOfFirst([Frame(p, CommandChannel)]);
    assert p[..LineEnd(p)] == AsciiBytes(cmd);
  }

  /** The card receives what the client sends: a command without CR, read off the
      one packet SendCommand writes, is the command's ASCII bytes, and decodes to the
      command itself when it is ASCII. */
  lemma CommandReadsBack(m: Mux, cmd: string, rest: seq<byte>)
    requires NoneOf(cmd, {'\r'}) && |cmd| + 7 < 65536
    requires m.port.inbound == CommandPacket(cmd) + rest
    ensures ReadCommandChannelLine(m).result == Ok(AsciiBytes(cmd))
    ensures ReadCommandChannelLine(m).mux.port.inbound == rest
    ensures IsAscii(cmd) ==> DecodeText(ReadCommandChannelLine(m).result.value) == cmd
  {
    var fs := [Frame(CommandBytes(cmd), CommandChannel)];
    CommandFrame(cmd);
    CommandFrameLine(cmd);
    ReadCommandChannelLineFrames(m, fs, rest);
    assert [] + rest == rest;
    if IsAscii(cmd) {
      AsciiRoundTrip(cmd);
    }
  }

  /** GlobularPath: the empty path becomes "*"; any other path gets a slash and "*" appended. */
  function GlobularPath(cardPath: string): (g: string)
    ensures cardPath == "" ==> g == "*"
    ensures cardPath != "" ==> Split(g, {'/'}) == Split(cardPath, {'/'}) + ["*"]
    ensures |g| > |cardPath| && g[|g| - 1] == '*' && g[..|cardPath|] == cardPath
  {
    if cardPath == "" then cardPath + "*"
    else
      assert cardPath + "/*" == cardPath + ['/'] + "*";
      SplitAppend(cardPath, '/', "*", {'/'});
      cardPath + "/*"
  }

  // ---------------------------------------------------------------- connection

  /** CheckMultiplexer: "Not Connected" unless the multiplexer is present. */
  function CheckMultiplexer(c: Card): (r: Result<Mux>)
    ensures r.Ok? <==> c.connected
    ensures r.Ok? ==> r.value == c.link
    ensures r.Err? ==> r.fault == NotConnected
  {
    if c.connected then Ok(c.link) else Err(NotConnected)
  }

  /** Disconnect: clean the multiplexer up (Cleanup never throws) and drop it; without
      a multiplexer there is nothing to do. */
  function Disconnect(c: Card): (d: Card)
    ensures !d.connected
    ensures !c.connected ==> d == c
    ensures c.connected ==> !d.link.port.open
    ensures d.link.port.written == c.link.port.written && d.link.port.inbound == c.link.port.inbound
  {
    if c.connected then Card(Cleanup(c.link), false) else c
  }

  /** Disconnecting twice is disconnecting once. */
  lemma DisconnectIdempotent(c: Card)
    ensures Disconnect(Disconnect(c)) == Disconnect(c)
  {
  }

  /** The `catch (IOException) { Disconnect(); throw; }` around every command: an
      I/O failure leaves the card disconnected; every other outcome passes through. */
  function Guard(r: Reply): (g: Reply)
    ensures g.result == r.result
    ensures r.result == Err(IoFailure) ==> g.card == Disconnect(r.card)
    ensures r.result != Err(IoFailure) ==> g == r
  {
    if r.result == Err(IoFailure) then Reply(Disconnect(r.card), r.result) else r
  }

  /** A nested catch (Put around Srft around Call) changes nothing more. */
  lemma GuardIdempotent(r: Reply)
    ensures Guard(Guard(r)) == Guard(r)
  {
  }

  // ---------------------------------------------------------------- commands

  /** SendCommand: check the multiplexer, then write the command bytes as one
      command-channel packet. */
  function SendCommand(c: Card, verb: string, cardPath: string, arguments: Option<seq<string>>): (r: Result<Card>)
    ensures r.Err? <==> !c.connected
    ensures r.Err? ==> r.fault == NotConnected
    ensures r.Ok? ==> && r.value.connected
                      && r.value.link.port.written
                         == c.link.port.written + [CommandPacket(BuildCommandString(verb, cardPath, arguments))]
                      && r.value.link.port.inbound == c.link.port.inbound
                      && r.value.link.port.open == c.link.port.open
  {
    var m :- CheckMultiplexer(c);
    var cmd := BuildCommandString(verb, cardPath, arguments);
    Ok(Card(WriteToCommandChannel(m, CommandBytes(cmd)), true))
  }

  /** GetCommandResponse: check the multiplexer, read one command line and parse it. */
  function GetCommandResponse(c: Card): (r: Reply)
    ensures !c.connected ==> r == Reply(c, Err(NotConnected))
    ensures r.card.connected == c.connected
    ensures r.card.link == c.link.(port := c.link.port.(inbound := r.card.link.port.inbound))
    ensures r.result.Ok? ==> r.result.value.dataFile.None?
  {
    match CheckMultiplexer(c)
    case Err(e) => Reply(c, Err(e))
    case Ok(m) =>
      var s := ReadCommandChannelLine(m);
      var result := match s.result
        case Err(e) => Err(e)
        case Ok(line) => ParseResponse(line, None);
      Reply(Card(s.mux, true), result)
  }

  /** Frames that carry one reply line, ending it in their last frame. */
  predicate ReplyFrames(fs: seq<Frame>)
  {
    |fs| > 0 && AllWellFormed(fs) && CrlfFrame(fs) == |fs| - 1
  }

  /** The card with the inbound stream replaced. */
  function Received(c: Card, rest: seq<byte>): Card
  {
    c.(link := c.link.(port := c.link.port.(inbound := rest)))
  }

  /** Reading a reply off encoded frames parses the line they spell out and leaves
      exactly the bytes after them. */
  lemma ReadReply(c: Card, fs: seq<Frame>, rest: seq<byte>)
    requires c.connected && ReplyFrames(fs)
    requires c.link.port.inbound == EncodeFrames(fs) + rest
    ensures GetCommandResponse(c) == Reply(Received(c, rest), ParseResponse(LineOf(fs), None))
  {
    var s := ReadCommandChannelLine(c.link);
    assert s.result == Ok(LineOf(fs)) && s.mux == c.link.(port := c.link.port.(inbound := rest)) by {
      ReadCommandChannelLineFrames(c.link, fs, rest);
      assert fs[CrlfFrame(fs) + 1..] == [];
    }
    assert CheckMultiplexer(c) == Ok(c.link);
    assert Card(s.mux, true) == Received(c, rest);
  }

  /** Call: send the command and parse the reply line; an I/O failure disconnects. */
  function Call(c: Card, verb: string, cardPath: string, arguments: Option<seq<string>>): (r: Reply)
    ensures !c.connected ==> r == Reply(c, Err(NotConnected))
    ensures c.connected ==>
              r.card.link.port.written
              == c.link.port.written + [CommandPacket(BuildCommandString(verb, cardPath, arguments))]
    ensures r.result == Err(IoFailure) ==> !r.card.connected && !r.card.link.port.open
    ensures r.result != Err(IoFailure) ==> r.card.connected == c.connected
    ensures r.result.Ok? ==> r.result.value.dataFile.None?
  {
    match SendCommand(c, verb, cardPath, arguments)
    case Err(e) => Reply(c, Err(e))
    case Ok(sent) => Guard(GetCommandResponse(sent))
  }

  /** On encoded reply frames, Call returns the parsed reply line, consumes exactly
      those frames and stays connected (a reply that does not parse is not an I/O
      failure). */
  lemma CallFrames(c: Card, verb: string, cardPath: string, arguments: Option<seq<string>>,
                   fs: seq<Frame>, rest: seq<byte>)
    requires c.connected && ReplyFrames(fs)
    requires c.link.port.inbound == EncodeFrames(fs) + rest
    ensures var r := Call(c, verb, cardPath, arguments);
            && r.result == ParseResponse(LineOf(fs), None)
            && r.card.connected
            && r.card.link.port.inbound == rest
  {
    var sent := SendCommand(c, verb, cardPath, arguments).value;
    ReadReply(sent, fs, rest);
  }

  /** Get(method, path): send the command; a reply other than 150 is the answer.
      After 150 the data channel is read into a fresh sink, and the reply line after
      the data, with the sink as its data file, is the answer. */
  function Get(c: Card, verb: string, cardPath: string): (r: Reply)
    ensures !c.connected ==> r == Reply(c, Err(NotConnected))
    ensures c.connected ==>
              r.card.link.port.written == c.link.port.written + [CommandPacket(BuildCommandString(verb, cardPath, None))]
    ensures r.result == Err(IoFailure) ==> !r.card.connected && !r.card.link.port.open
    ensures r.result != Err(IoFailure) ==> r.card.connected == c.connected
    ensures r.result.Ok? && r.result.value.dataFile.None? ==> r.result.value.status != ReadyToSend
  {
    match SendCommand(c, verb, cardPath, None)
    case Err(e) => Reply(c, Err(e))
    case Ok(sent) =>
      var reply := GetCommandResponse(sent);
      if reply.result.Err? || reply.result.value.status != ReadyToSend then Guard(reply)
      else
        var t := ReadDataChannelToFile(reply.card.link, []);
        var result := match t.result
          case Err(e) => Err(e)
          case Ok(line) => ParseResponse(line, Some(t.sink));
        Guard(Reply(Card(t.mux, true), result))
  }

  /** A first reply other than 150 is returned as it is, and nothing after it is read. */
  lemma GetRefused(c: Card, verb: string, cardPath: string, fs: seq<Frame>, rest: seq<byte>)
    requires c.connected && ReplyFrames(fs)
    requires c.link.port.inbound == EncodeFrames(fs) + rest
    requires ParseResponse(LineOf(fs), None).Ok? ==> ParseResponse(LineOf(fs), None).value.status != ReadyToSend
    ensures var r := Get(c, verb, cardPath);
            && r.result == ParseResponse(LineOf(fs), None)
            && r.card.connected
            && r.card.link.port.inbound == rest
  {
    var sent := SendCommand(c, verb, cardPath, None).value;
    ReadReply(sent, fs, rest);
  }

  /** After a 150 reply, the data file holds the payloads of the data-channel frames
      that follow, in order, and the status comes from the reply line after them. */
  lemma GetDownloads(c: Card, verb: string, cardPath: string, fs: seq<Frame>, frames: seq<Frame>, rest: seq<byte>)
    requires c.connected && ReplyFrames(fs)
    requires ParseResponse(LineOf(fs), None).Ok? && ParseResponse(LineOf(fs), None).value.status == ReadyToSend
    requires AllWellFormed(frames) && DownloadReply(frames)
    requires c.link.port.inbound == EncodeFrames(fs) + (EncodeFrames(frames) + rest)
    ensures var r := Get(c, verb, cardPath);
            var k := DataRun(frames);
            && r.result == ParseResponse(LineOf(frames[k..]), Some(Payloads(frames[..k])))
            && r.card.connected
            && r.card.link.port.inbound == EncodeFrames(frames[ReplyEnd(frames)..]) + rest
  {
    var sent := SendCommand(c, verb, cardPath, None).value;
    ReadReply(sent, fs, EncodeFrames(frames) + rest);
    DownloadFrames(Received(sent, EncodeFrames(frames) + rest).link, frames, rest, []);
  }

  /** Srft: stamp the file with the time, "SRFT <timestamp> <path>". */
  function Srft(c: Card, cardPath: string, now: DateTime): (r: Reply)
    requires Valid(now)
    ensures !c.connected ==> r == Reply(c, Err(NotConnected))
    ensures c.connected ==>
              r.card.link.port.written
              == c.link.port.written + [CommandPacket(StampVerb + " " + FormatAsWritten(now) + " " + DefaultPath + cardPath)]
    ensures r.result == Err(IoFailure) ==> !r.card.connected && !r.card.link.port.open
    ensures r.result != Err(IoFailure) ==> r.card.connected == c.connected
  {
    var timestamp := FormatAsWritten(now);
    assert BuildCommandString(StampVerb, cardPath, Some([timestamp]))
           == StampVerb + " " + timestamp + " " + DefaultPath + cardPath;
    Call(c, StampVerb, cardPath, Some([timestamp]))
  }

  /** Put: STOR the path; unless the reply is 150, that reply is the answer, and
      otherwise the upload goes ahead. An I/O failure anywhere disconnects. */
  function Put(c: Card, cardPath: string, contents: seq<byte>, now: DateTime): (r: Reply)
    requires Valid(now)
    ensures !c.connected ==> r == Reply(c, Err(NotConnected))
    ensures r.result == Err(IoFailure) ==> !r.card.connected && !r.card.link.port.open
    ensures r.result != Err(IoFailure) ==> r.card.connected == c.connected
  {
    match SendCommand(c, StoreVerb, cardPath, None)
    case Err(e) => Reply(c, Err(e))
    case Ok(sent) =>
      var stored := GetCommandResponse(sent);
      if stored.result.Err? || stored.result.value.status != ReadyToSend then Guard(stored)
      else Guard(Upload(stored.card.link, cardPath, contents, now))
  }

  /** The part of Put after the 150 reply: the bytes go up the data channel in chunks
      of at most 512; unless the next reply is 226, that reply is the answer;
      otherwise the file is stamped with SRFT and its reply is the answer. */
  function Upload(m: Mux, cardPath: string, contents: seq<byte>, now: DateTime): (r: Reply)
    requires Valid(now)
    ensures r.result == Err(IoFailure) ==> !r.card.connected && !r.card.link.port.open
    ensures r.result != Err(IoFailure) ==> r.card.connected
    ensures |r.card.link.port.written| >= |m.port.written| + |contents| / MaximumPayloadSize
  {
    var uploaded := Card(WriteStreamToDataChannel(m, MemoryStreamReads(contents)), true);
    UploadCount(contents);
    var done := GetCommandResponse(uploaded);
    if done.result.Err? || done.result.value.status != TransferComplete then Guard(done)
    else Srft(done.card, cardPath, now)
  }

  /** A MemoryStream upload sends one packet per started 512-byte block. */
  lemma {:induction false} UploadCount(contents: seq<byte>)
    ensures |MemoryStreamReads(contents)| >= |contents| / MaximumPayloadSize
    ensures |MemoryStreamReads(contents)| * MaximumPayloadSize >= |contents|
    ensures |MemoryStreamReads(contents)| == (|contents| + MaximumPayloadSize - 1) / MaximumPayloadSize
    decreases |contents|
  {
    var n := |contents|;
    if n >= MaximumPayloadSize {
      UploadCount(contents[MaximumPayloadSize..]);
      assert (n - MaximumPayloadSize + MaximumPayloadSize - 1) / MaximumPayloadSize + 1
             == (n + MaximumPayloadSize - 1) / MaximumPayloadSize;
    }
  }

  /** A STOR reply other than 150 is the answer, and nothing goes on the data channel. */
  lemma PutRefused(c: Card, cardPath: string, contents: seq<byte>, now: DateTime, fs: seq<Frame>, rest: seq<byte>)
    requires Valid(now) && c.connected && ReplyFrames(fs)
    requires c.link.port.inbound == EncodeFrames(fs) + rest
    requires ParseResponse(LineOf(fs), None).Ok? ==> ParseResponse(LineOf(fs), None).value.status != ReadyToSend
    ensures var r := Put(c, cardPath, contents, now);
            && r.result == ParseResponse(LineOf(fs), None)
            && r.card.link.port.written == c.link.port.written + [CommandPacket(StoreVerb + " " + DefaultPath + cardPath)]
            && r.card.link.port.inbound == rest
            && r.card.connected
  {
    var sent := SendCommand(c, StoreVerb, cardPath, None).value;
    ReadReply(sent, fs, rest);
  }

  /** The packets an upload of `contents` puts on the data channel. */
  function UploadPackets(contents: seq<byte>): seq<seq<byte>>
  {
    DataPackets(MemoryStreamReads(contents))
  }

  /** A reply other than 226 after the data is the answer, and no SRFT is sent. */
  lemma UploadIncomplete(m: Mux, cardPath: string, contents: seq<byte>, now: DateTime,
                         gs: seq<Frame>, rest: seq<byte>)
    requires Valid(now) && ReplyFrames(gs) && m.port.inbound == EncodeFrames(gs) + rest
    requires ParseResponse(LineOf(gs), None).Ok? ==> ParseResponse(LineOf(gs), None).value.status != TransferComplete
    ensures var r := Upload(m, cardPath, contents, now);
            && r.result == ParseResponse(LineOf(gs), None)
            && r.card.link.port.written == m.port.written + UploadPackets(contents)
            && r.card.link.port.inbound == rest
            && r.card.connected
  {
    var uploaded := Card(WriteStreamToDataChannel(m, MemoryStreamReads(contents)), true);
    UploadFrames(m, contents);
    ReadReply(uploaded, gs, rest);
  }

  /** After 226 the file is stamped: the answer is the SRFT reply, sent after the data. */
  lemma UploadStamps(m: Mux, cardPath: string, contents: seq<byte>, now: DateTime,
                     gs: seq<Frame>, hs: seq<Frame>, rest: seq<byte>)
    requires Valid(now) && ReplyFrames(gs) && ReplyFrames(hs)
    requires m.port.inbound == EncodeFrames(gs) + (EncodeFrames(hs) + rest)
    requires ParseResponse(LineOf(gs), None).Ok? && ParseResponse(LineOf(gs), None).value.status == TransferComplete
    ensures var r := Upload(m, cardPath, contents, now);
            && r.result == ParseResponse(LineOf(hs), None)
            && r.card.link.port.written
               == m.port.written + UploadPackets(contents)
                  + [CommandPacket(StampVerb + " " + FormatAsWritten(now) + " " + DefaultPath + cardPath)]
            && r.card.link.port.inbound == rest
            && r.card.connected
  {
    var uploaded := Card(WriteStreamToDataChannel(m, MemoryStreamReads(contents)), true);
    assert uploaded.link.port.written == m.port.written + UploadPackets(contents) by {
      UploadFrames(m, contents);
    }
    var done := Received(uploaded, EncodeFrames(hs) + rest);
    assert Upload(m, cardPath, contents, now) == Srft(done, cardPath, now) by {
      ReadReply(uploaded, gs, EncodeFrames(hs) + rest);
    }
    var stamp := Srft(done, cardPath, now);
    assert stamp.result == ParseResponse(LineOf(hs), None) && stamp.card.connected
           && stamp.card.link.port.inbound == rest by {
      CallFrames(done, StampVerb, cardPath, Some([FormatAsWritten(now)]), hs, rest);
    }
  }

  /** After 150 the whole array is uploaded; a following reply other than 226 is the
      answer and no SRFT is sent. */
  lemma PutIncomplete(c: Card, cardPath: string, contents: seq<byte>, now: DateTime,
                      fs: seq<Frame>, gs: seq<Frame>, rest: seq<byte>)
    requires Valid(now) && c.connected && ReplyFrames(fs) && ReplyFrames(gs)
    requires c.link.port.inbound == EncodeFrames(fs) + (EncodeFrames(gs) + rest)
    requires ParseResponse(LineOf(fs), None).Ok? && ParseResponse(LineOf(fs), None).value.status == ReadyToSend
    requires ParseResponse(LineOf(gs), None).Ok? ==> ParseResponse(LineOf(gs), None).value.status != TransferComplete
    ensures var r := Put(c, cardPath, contents, now);
            && r.result == ParseResponse(LineOf(gs), None)
            && r.card.link.port.written
               == c.link.port.written + [CommandPacket(StoreVerb + " " + DefaultPath + cardPath)] + UploadPackets(contents)
            && r.card.link.port.inbound == rest
            && r.card.connected
  {
    var sent := SendCommand(c, StoreVerb, cardPath, None).value;
    ReadReply(sent, fs, EncodeFrames(gs) + rest);
    UploadIncomplete(Received(sent, EncodeFrames(gs) + rest).link, cardPath, contents, now, gs, rest);
  }

  /** After 150 and then 226, the file is stamped: the answer is the SRFT reply and the
      packets written are STOR, the data and SRFT with the time. */
  lemma PutStamps(c: Card, cardPath: string, contents: seq<byte>, now: DateTime,
                  fs: seq<Frame>, gs: seq<Frame>, hs: seq<Frame>, rest: seq<byte>)
    requires Valid(now) && c.connected && ReplyFrames(fs) && ReplyFrames(gs) && ReplyFrames(hs)
    requires c.link.port.inbound == EncodeFrames(fs) + (EncodeFrames(gs) + (EncodeFrames(hs) + rest))
    requires ParseResponse(LineOf(fs), None).Ok? && ParseResponse(LineOf(fs), None).value.status == ReadyToSend
    requires ParseResponse(LineOf(gs), None).Ok? && ParseResponse(LineOf(gs), None).value.status == TransferComplete
    ensures var r := Put(c, cardPath, contents, now);
            && r.result == ParseResponse(LineOf(hs), None)
            && r.card.link.port.written
               == c.link.port.written + [CommandPacket(StoreVerb + " " + DefaultPath + cardPath)] + UploadPackets(contents)
                  + [CommandPacket(StampVerb + " " + FormatAsWritten(now) + " " + DefaultPath + cardPath)]
            && r.card.link.port.inbound == rest
            && r.card.connected
  {
    var sent := SendCommand(c, StoreVerb, cardPath, None).value;
    var afterStore := EncodeFrames(gs) + (EncodeFrames(hs) + rest);
    ReadReply(sent, fs, afterStore);
    UploadStamps(Received(sent, afterStore).link, cardPath, contents, now, gs, hs, rest);
  }

  // ---------------------------------------------------------------- public operations

  /** List: the files under a path, fetched with LIST of the globbed path. */
  function List(c: Card, cardPath: string): (r: Reply)
    ensures c.connected ==>
              r.card.link.port.written
              == c.link.port.written + [CommandPacket(ListVerb + " " + DefaultPath + GlobularPath(cardPath))]
    ensures !c.connected ==> r == Reply(c, Err(NotConnected))
  {
    Get(c, ListVerb, GlobularPath(cardPath))
  }

  /** FreeMemory: MLST of the empty path, through the data channel. */
  function FreeMemory(c: Card): (r: Reply)
    ensures c.connected ==>
              r.card.link.port.written == c.link.port.written + [CommandPacket(ListEntryVerb + " " + DefaultPath)]
    ensures !c.connected ==> r == Reply(c, Err(NotConnected))
  {
    assert ListEntryVerb + " " + DefaultPath + "" == ListEntryVerb + " " + DefaultPath;
    Get(c, ListEntryVerb, "")
  }

  /** Delete: DELE of a file. */
  function Delete(c: Card, cardPath: string): (r: Reply)
    ensures c.connected ==>
              r.card.link.port.written == c.link.port.written + [CommandPacket(DeleteVerb + " " + DefaultPath + cardPath)]
    ensures !c.connected ==> r == Reply(c, Err(NotConnected))
    ensures r.result.Ok? ==> r.result.value.dataFile.None?
  {
    Call(c, DeleteVerb, cardPath, None)
  }

  /** DeletePath: RMD of a folder. */
  function DeletePath(c: Card, cardPath: string): (r: Reply)
    ensures c.connected ==>
              r.card.link.port.written
              == c.link.port.written + [CommandPacket(RemoveDirectoryVerb + " " + DefaultPath + cardPath)]
    ensures !c.connected ==> r == Reply(c, Err(NotConnected))
    ensures r.result.Ok? ==> r.result.value.dataFile.None?
  {
    Call(c, RemoveDirectoryVerb, cardPath, None)
  }

  /** Get(path): RETR of a file, through the data channel. */
  function GetFile(c: Card, cardPath: string): (r: Reply)
    ensures c.connected ==>
              r.card.link.port.written == c.link.port.written + [CommandPacket(RetrieveVerb + " " + DefaultPath + cardPath)]
    ensures !c.connected ==> r == Reply(c, Err(NotConnected))
  {
    Get(c, RetrieveVerb, cardPath)
  }

  /** CreatePath: MKD of a folder. */
  function CreatePath(c: Card, cardPath: string): (r: Reply)
    ensures c.connected ==>
              r.card.link.port.written
              == c.link.port.written + [CommandPacket(MakeDirectoryVerb + " " + DefaultPath + cardPath)]
    ensures !c.connected ==> r == Reply(c, Err(NotConnected))
    ensures r.result.Ok? ==> r.result.value.dataFile.None?
  {
    Call(c, MakeDirectoryVerb, cardPath, None)
  }

  // ---------------------------------------------------------------- replies over frames

  /** The frame a card sends a reply line in: the status, a space, the message, CR LF. */
  function StatusFrame(status: nat, message: string): Frame
  {
    Frame(CommandBytes(NatToString(status) + " " + message), CommandChannel)
  }

  /** A status frame is one reply line, and the line parses to its status and
      message. */
  lemma StatusFrameLine(status: nat, message: string, dataFile: Option<seq<byte>>)
    requires status <= Int32Max && IsAscii(message) && NoneOf(message, {'\r'}) && |message| + 18 < 65536
    ensures ReplyFrames([StatusFrame(status, message)])
    ensures ParseResponse(LineOf([StatusFrame(status, message)]), dataFile) == Ok(Response(status, Some(message), dataFile))
  {
    var text := NatToString(status) + " " + message;
    var f := StatusFrame(status, message);
    var r := Response(status, Some(message), dataFile);
    StatusTextNoCr(status, message);
    CommandLineEnd(text);
    StatusFrameWellFormed(status, message);
    SingleReply(f);
    assert LineOf([f]) == AsciiBytes(text);
    assert StatusMessage(r) == text;
    StatusMessageRoundTrip(r);
  }

  /** A reply line made of digits, a space and a message without CR has no CR. */
  lemma StatusTextNoCr(status: nat, message: string)
    requires NoneOf(message, {'\r'})
    ensures NoneOf(NatToString(status) + " " + message, {'\r'})
  {
    var digits := NatToString(status);
    var text := digits + " " + message;
    assert AllDigits(digits);
    assert forall i :: 0 <= i < |digits| ==> text[i] == digits[i];
    assert forall i :: |digits| < i < |text| ==> text[i] == message[i - |digits| - 1];
  }

  /** A status frame fits the 16-bit size field: an Int32 status has at most ten
      digits. */
  lemma StatusFrameWellFormed(status: nat, message: string)
    requires status <= Int32Max && |message| + 18 < 65536
    ensures WellFormed(StatusFrame(status, message))
  {
    assert Pow10(10) == 10000000000 by {
      assert Pow10(5) == 100000;
    }
    NatToStringLength(status, 10);
    var text := NatToString(status) + " " + message;
    assert |CommandBytes(text)| == |text| + 2;
  }

  /** One frame with CR LF is one reply line: its payload up to the CR LF. */
  lemma SingleReply(f: Frame)
    requires WellFormed(f) && ContainsCrlf(f.payload)
    ensures ReplyFrames([f])
    ensures LineOf([f]) == f.payload[..LineEnd(f.payload)]
  {
    LineOfFirst([f]);
  }

  /** A GET answered by a 150 reply, one data frame and a final reply gives the final
      status and message with the data frame's bytes, exactly, as the data file. */
  lemma GetExchange(c: Card, verb: string, cardPath: string, data: seq<byte>,
                    readyText: string, status: nat, message: string)
    requires c.connected && |data| + 5 < 65536
    requires IsAscii(readyText) && NoneOf(readyText, {'\r'}) && |readyText| + 18 < 65536
    requires status <= Int32Max && IsAscii(message) && NoneOf(message, {'\r'}) && |message| + 18 < 65536
    requires c.link.port.inbound
             == EncodeFrames([StatusFrame(150, readyText), Frame(data, DataChannel), StatusFrame(status, message)])
    ensures Get(c, verb, cardPath).result == Ok(Response(status, Some(message), Some(data)))
    ensures Get(c, verb, cardPath).card.connected
  {
    StatusFrameLine(150, readyText, None);
    StatusFrameLine(status, message, Some(data));
    GetOneDataFrame(c, verb, cardPath, StatusFrame(150, readyText), Frame(data, DataChannel), StatusFrame(status, message));
  }

  /** A GET answered by a 150 reply frame, one data frame and a reply frame gives the
      last reply with the data frame's payload as the data file. */
  lemma GetOneDataFrame(c: Card, verb: string, cardPath: string, ready: Frame, d: Frame, reply: Frame)
    requires c.connected && ReplyFrames([ready])
    requires ParseResponse(LineOf([ready]), None).Ok? && ParseResponse(LineOf([ready]), None).value.status == ReadyToSend
    requires d.channel == DataChannel && WellFormed(d)
    requires reply.channel != DataChannel && ReplyFrames([reply])
    requires c.link.port.inbound == EncodeFrames([ready, d, reply])
    ensures Get(c, verb, cardPath).result == ParseResponse(LineOf([reply]), Some(d.payload))
    ensures Get(c, verb, cardPath).card.connected
  {
    var frames := [d, reply];
    EncodeFirst(ready, frames);
    assert [ready] + frames == [ready, d, reply];
    DataThenReply(d, reply);
    GetDownloads(c, verb, cardPath, [ready], frames, []);
  }

  /** The bytes of a frame list are those of its first frame, then the rest. */
  lemma EncodeFirst(f: Frame, fs: seq<Frame>)
    ensures EncodeFrames([f] + fs) + [] == EncodeFrames([f]) + (EncodeFrames(fs) + [])
  {
    assert ([f] + fs)[1..] == fs;
    assert [f][1..] == [];
  }

  /** One data frame then a one-frame reply: a download reply whose data is that
      frame's payload and whose line is the reply's. */
  lemma DataThenReply(d: Frame, reply: Frame)
    requires d.channel == DataChannel && WellFormed(d)
    requires reply.channel != DataChannel && ReplyFrames([reply])
    ensures AllWellFormed([d, reply]) && DownloadReply([d, reply])
    ensures DataRun([d, reply]) == 1 && ReplyEnd([d, reply]) == 2
    ensures Payloads([d, reply][..1]) == d.payload
    ensures [d, reply][1..] == [reply]
  {
    var frames := [d, reply];
    assert frames[1..] == [reply];
    assert DataRun(frames[1..]) == 0;
    assert frames[..1] == [d];
    assert Payloads([d]) == d.payload by {
      assert [d][1..] == [];
    }
  }

  /** The GET exchange end to end: "150 ready", 256 data bytes, "226 complete" gives
      status 226 with exactly those bytes as the data file. */
  lemma GetScenario(c: Card, verb: string, cardPath: string, data: seq<byte>)
    requires c.connected && |data| == 256
    requires c.link.port.inbound
             == EncodeFrames([StatusFrame(150, "ready"), Frame(data, DataChannel), StatusFrame(226, "complete")])
    ensures Get(c, verb, cardPath).result == Ok(Response(226, Some("complete"), Some(data)))
    ensures Get(c, verb, cardPath).card.connected
  {
    assert IsAscii("ready") && NoneOf("ready", {'\r'});
    assert IsAscii("complete") && NoneOf("complete", {'\r'});
    GetExchange(c, verb, cardPath, data, "ready", 226, "complete");
  }
}
