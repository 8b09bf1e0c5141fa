# GateKeeper card protocol stack, modelled in Dafny

This project models the protocol stack of the GateKeeper SDK. The SDK is the C# client
that a password vault uses to talk to a GateKeeper card over a Bluetooth serial link.
The model covers five layers:

- **Frame codec** (`Packets`, GateKeeperSDK/DataPacket.cs). A frame on the wire is
  `[channel][size_hi][size_lo][payload][0][0]`. The size is `|payload| + 5`, written as
  16 bits. Decoding reads the header, then the payload, then two checksum bytes that
  are never checked.
- **Multiplexer** (`Multiplexing`, GateKeeperSDK/GkMultiplexer.cs). Channel 1 carries
  command text and channel 2 carries file data.
  - An upload goes out in chunks of at most 512 bytes.
  - A command line is put together from frame payloads up to the first CR LF inside
    one frame.
  - A download keeps the channel-2 payloads, then reads the status line that follows
    them.
  - The serial port is a `Port`. It holds the inbound bytes not yet read, a log of the
    packets written, and whether it is open.
- **Replies** (`Responses`, GateKeeperSDK/Response.cs). A reply line is split once at
  the first space, CR or LF. The first piece is parsed with `Convert.ToInt32` as the
  status. The rest, if there is a rest, is the message.
- **Card client** (`Cards`, GateKeeperSDK/Card.cs). It builds the command text
  `VERB [args] /apps/vault/data/<path>`, followed by CR LF. It then reads replies and
  acts on the status codes:
  - 150: data may now flow.
  - 226: the upload is complete, so the file is stamped with SRFT.

  A card without a multiplexer fails with "Not Connected". An I/O failure disconnects
  the card and is passed on to the caller. The SRFT timestamp is in `Timestamps`.
- **Path and string helpers**:
  - `StringUtils`: GkStringUtils.Join and .NET `Split` / `Replace`.
  - `FileUtils`: GKFileUtils.
  - `Files`: GKFile.
  - `Helpers`: Helper.cs and Arrays.copyOf.
  - `Decimal` and `Bytes`: the number printing and text encodings these rely on.

Every operation is a pure function over immutable datatypes. `Results` has the
`Option` and `Result` types. A C# exception is an `Err` with a `Fault`:

- `IoFailure`: an IOException, including the serial port running out of bytes.
- `NotConnected`: the "Not Connected" exception.
- `BadFormat` and `Overflow`: the exceptions `Convert.ToInt32` throws.
- `NegativePayload`: a header whose size is below 5, which makes `new byte[n]` throw.

Only `IoFailure` triggers Disconnect or Cleanup, because the source catches only
IOException.

Some inputs come from outside the card client:

- The clock reading for SRFT is a parameter.
- The temporary data file of a download is the byte sequence `sink`.
- The bytes the card sends are the port's `inbound` sequence.

A run-of-bytes-out stands for a port that stops delivering data.

Some details of the code that the model keeps:

- Card.cs prefixes every command path with `/apps/vault/data/`, MLST, DELE and RMD
  included. So `FreeMemory` sends `MLST /apps/vault/data/` and `List("")` sends
  `LIST /apps/vault/data/*`.
- Card.cs builds SRFT with the timestamp first and the path second:
  `SRFT <stamp> /apps/vault/data/<path>`. The stamp is the 12-hour one that Card.cs:145
  formats (first row under Findings).
- Response.cs parses the status with `Convert.ToInt32`, so it is any Int32. The status
  is split off at space, CR or LF only, so a TAB does not end it.
- GkMultiplexer.cs looks for CR LF inside one frame, so a CR LF split across two
  frames does not end a command line (`Multiplexing.SplitCrlfNotRecognised`).

## Model

| member | source | states |
|---|---|---|
| Bytes.DecodeText | GateKeeperSDK/Response.cs:89 | decoding a reply line keeps its length, and each character has the code of its byte |
| Bytes.AsciiBytes | GateKeeperSDK/Card.cs:366-369 | ASCII encoding gives one byte per character |
| Bytes.AsciiRoundTrip | GateKeeperSDK/Card.cs:366-369 | decoding the ASCII bytes of an ASCII command gives the command back |
| Decimal.NatToStringRoundTrip | GateKeeperSDK/Response.cs:127-130 | the decimal text of a status reads back as that status |
| Decimal.PadRoundTrip | GateKeeperSDK/Card.cs:145 | a zero-padded timestamp field reads back as its value when it fits the width |
| Helpers.CopyOf | GateKeeperSDK/Helper.cs:43-52 | copyOf needs n <= \|a\|; the result has length n and agrees with a on each index, so copyOf(a, \|a\|) == a |
| Helpers.HexStringToByteArray | GateKeeperSDK/Helper.cs:16-22 | a successful parse has one byte per two characters; every failure is either out of range or a format failure |
| Helpers.HexParseSucceeds | GateKeeperSDK/Helper.cs:16-22 | the parse succeeds exactly when the input has even length and only hex digits |
| Helpers.HexParseValues | GateKeeperSDK/Helper.cs:18-20 | on an even number of hex digits, byte k is 16 * hex[2k] + hex[2k+1] |
| Helpers.HexParseFault | GateKeeperSDK/Helper.cs:16-22 | a failure is out of range exactly when the length is odd and all but the last character are hex digits; otherwise it is a format failure |
| Helpers.HexRoundTrip | GateKeeperSDK/Helper.cs:16-22 | the hex text of any byte sequence converts back to that sequence |
| Helpers.AsString | GateKeeperSDK/Helper.cs:29-32 | the empty array prints as "" |
| Helpers.AsStringSplits | GateKeeperSDK/Helper.cs:29-32 | split at spaces, asString gives the decimal text of every byte in order, then one empty piece for the trailing space |
| Helpers.AsStringRoundTrip | GateKeeperSDK/Helper.cs:29-32 | each piece before the trailing space is a digit string whose value is its byte |
| Packets.ToPacketBytes | GateKeeperSDK/DataPacket.cs:67-85 | the packet has \|data\|+5 bytes: the channel byte, then \|data\|+5 big-endian, the data unchanged at offsets 3.., and two zero checksum bytes |
| Packets.SizeFieldRoundTrip | GateKeeperSDK/DataPacket.cs:93-100 | getPacketSize inverts getMSB/getLSB modulo 65536 |
| Packets.Build | GateKeeperSDK/DataPacket.cs:50-59 | decoding succeeds exactly when a header is there, its size is at least 5, and that many bytes are there. The channel is header byte 0 and the payload is size-5 bytes after the header. The rest starts right after the packet. A short stream is an I/O failure and a size below 5 a negative-payload failure |
| Packets.DecodeIgnoresChecksum | GateKeeperSDK/DataPacket.cs:56-58 | any two checksum bytes decode to the same frame |
| Packets.DecodeEncoded | GateKeeperSDK/DataPacket.cs:50-85 | decoding an encoded frame gives its payload and channel & 0xFF back and consumes exactly \|data\|+5 bytes |
| Packets.BuildInvertsEncoding | GateKeeperSDK/DataPacket.cs:50-59 | every stream that decodes is an encoded frame (up to the checksum bytes) followed by the rest |
| Packets.DecodeFirstFrame | GateKeeperSDK/DataPacket.cs:50-59 | a run of encoded frames decodes one frame at a time, in order |
| Multiplexing.Write | GateKeeperSDK/GkMultiplexer.cs:213-217 | one packet is appended to the port's log and it decodes to the data on the given channel; nothing else changes |
| Multiplexing.WriteToCommandChannel | GateKeeperSDK/GkMultiplexer.cs:41-44 | exactly toPacketBytes(data, 1) is written |
| Multiplexing.WriteToDataChannel | GateKeeperSDK/GkMultiplexer.cs:50-53 | exactly toPacketBytes(data, 2) is written |
| Multiplexing.ChunkCountStops | GateKeeperSDK/GkMultiplexer.cs:67-85 | the upload loop sends the reads before the first empty read and stops there |
| Multiplexing.PumpChunksSends | GateKeeperSDK/GkMultiplexer.cs:64-85 | the loop writes one data packet per non-empty read, in order, and nothing else |
| Multiplexing.WriteStreamToDataChannel | GateKeeperSDK/GkMultiplexer.cs:59-91 | the stream upload writes the data packets of the non-empty reads and leaves the transfer size at 0 |
| Multiplexing.MemoryStreamReads | GateKeeperSDK/Card.cs:117-120 | a MemoryStream is read in chunks of at most 512 bytes, all but the last full; together they make the contents |
| Multiplexing.UploadFrames | GateKeeperSDK/GkMultiplexer.cs:59-85 | uploading a byte buffer writes channel-2 frames of 1..512 bytes, never an empty one, whose payloads together are the buffer |
| Multiplexing.ContainsCrlf | GateKeeperSDK/GkMultiplexer.cs:176-186 | true exactly when some p[i] = 13 and p[i+1] = 10 |
| Multiplexing.CopyUntilCrlf | GateKeeperSDK/GkMultiplexer.cs:194-206 | appends the payload up to its first CR LF, or the whole payload when it has none (a lone trailing CR is kept) |
| Multiplexing.ReadFrame | GateKeeperSDK/DataPacket.cs:50-59 | a frame read off the port is what the packet decoder gives, and the port keeps the bytes after it. A read that runs dry leaves nothing; a negative payload size leaves everything after the three header bytes |
| Multiplexing.ReadCommandChannelLine | GateKeeperSDK/GkMultiplexer.cs:97-101 | only inbound bytes are consumed, a whole frame at least when a line is read, and a first frame that does not decode fails with the decoder's fault |
| Multiplexing.ReadCommandLine | GateKeeperSDK/GkMultiplexer.cs:159-169 | reading a line only consumes inbound bytes; nothing is written |
| Multiplexing.ReadCommandLineFrames | GateKeeperSDK/GkMultiplexer.cs:159-169 | the line is the payloads of the frames before the first frame with a CR LF, then that frame's payload up to its CR LF, channel ignored. Reading stops right after that frame |
| Multiplexing.ReadCommandChannelLineFrames | GateKeeperSDK/GkMultiplexer.cs:97-101 | the same for ReadCommandChannelLine, starting with a fresh frame |
| Multiplexing.ReadCommandChannelLineRunsDry | GateKeeperSDK/GkMultiplexer.cs:97-101 | frames without any CR LF followed by nothing give an I/O failure |
| Multiplexing.SplitCrlfNotRecognised | GateKeeperSDK/GkMultiplexer.cs:159-169 | a CR ending one frame and an LF starting the next do not end the line |
| Multiplexing.Cleanup | GateKeeperSDK/GkMultiplexer.cs:143-152 | Cleanup closes the port and changes nothing else |
| Multiplexing.DrainData | GateKeeperSDK/GkMultiplexer.cs:116-126 | the download loop only adds to the sink and never writes |
| Multiplexing.ReadDataChannelToFile | GateKeeperSDK/GkMultiplexer.cs:110-138 | the transfer size is 0 afterwards. An I/O failure closes the port, and otherwise the port stays as it was. The sink only grows |
| Multiplexing.DownloadFrames | GateKeeperSDK/GkMultiplexer.cs:110-127 | the sink gets exactly the payloads of the leading channel-2 frames. The result is the line read from the first frame on another channel. Reading stops after that line |
| Responses.ParseInt32 | GateKeeperSDK/Response.cs:91 | Convert.ToInt32 returns a value in Int32, or a format or overflow failure |
| Responses.ParseInt32Number | GateKeeperSDK/Response.cs:91 | white space, a signed decimal, white space and then any run of NUL characters parse to that decimal when it is in Int32, and to an overflow otherwise |
| Responses.ParseInt32WellFormed | GateKeeperSDK/Response.cs:91 | anything that is not a format failure is such a padded number followed by NULs |
| Responses.TrailingNulAccepted | GateKeeperSDK/Response.cs:91 | "226" followed by a NUL converts to 226 |
| Responses.InnerNulRejected | GateKeeperSDK/Response.cs:91 | a NUL between digits is a format failure |
| Responses.Int32RoundTrip | GateKeeperSDK/Response.cs:91 | the decimal text of any Int32 parses back to it |
| Responses.ParseResponse | GateKeeperSDK/Response.cs:87-97 | the status is the value of the text before the first space, CR or LF, and the message is everything after it. There is no message when there is no separator. An empty or non-numeric status is a failure. The body stream is kept |
| Responses.ParseStatusLine | GateKeeperSDK/Response.cs:87-96 | digits, one separator and a text parse to the digits' value and that text |
| Responses.ParseStatusOnly | GateKeeperSDK/Response.cs:90-95 | a line without a separator parses to its status and no message |
| Responses.StatusOnlyLine | GateKeeperSDK/Response.cs:90-95 | a bare status number parses with no message |
| Responses.CopyResponse | GateKeeperSDK/Response.cs:38-43 | the copy has the same status, message and data stream, so it prints the same status message |
| Responses.StatusMessageRoundTrip | GateKeeperSDK/Response.cs:127-130 | parsing getStatusMessage of a response with an ASCII message gives the response back |
| Responses.NoMessageRoundTrip | GateKeeperSDK/Response.cs:127-130 | a response without a message prints with an empty message, which parses back as "" rather than none |
| Timestamps.Hour12 | GateKeeperSDK/Card.cs:145 | the "hh" field is the hour on a 12-hour clock, 1 to 12 |
| Timestamps.FormatAsWritten | GateKeeperSDK/Card.cs:145 | the stamp as written is 14 digits |
| Timestamps.FormatAsWrittenReadsBack | GateKeeperSDK/Card.cs:145 | for every valid time, the written stamp reads back as the time with the hour on the 12-hour clock, 12 at hours 0 and 12 |
| Timestamps.FormatAsWrittenCollides | GateKeeperSDK/Card.cs:145 | a morning time and the same time 12 hours later get the same stamp as written |
| Timestamps.FormatsAgreeBeforeNoon | GateKeeperSDK/Card.cs:145 | from 01:00 to 11:59 the written and the intended stamp agree |
| Timestamps.Format | GateKeeperSDK/Card.cs:145 | the intended stamp is 14 digits |
| Timestamps.FormatRoundTrip | GateKeeperSDK/Card.cs:145 | reading the six fields of the intended stamp gives the time back |
| Timestamps.FormatInjective | GateKeeperSDK/Card.cs:145 | distinct times get distinct intended stamps |
| StringUtils.Join | GateKeeperSDK/GKStringUtils.cs:18-33 | [] joins to "" and [x] to x. For n >= 1 the length is the sum of the lengths plus (n-1) separators |
| StringUtils.JoinSnoc | GateKeeperSDK/GKStringUtils.cs:25-32 | the result is s0 + sep + s1 + ... + sep + s(n-1) in order: one more element adds a separator and that element at the end |
| StringUtils.Split | GateKeeperSDK/GKFileUtils.cs:77 | String.Split always gives at least one piece |
| StringUtils.SplitNone | GateKeeperSDK/GKFileUtils.cs:77 | a text without separators is its only piece |
| StringUtils.SplitCons | GateKeeperSDK/GKFileUtils.cs:77 | a separator-free piece, the separator and a rest split into that piece and the pieces of the rest |
| StringUtils.SplitKeepsNoneOf | GateKeeperSDK/GKFileUtils.cs:77 | the pieces of a text without some characters do not hold them either |
| StringUtils.IndexOfAnyFirst | GateKeeperSDK/GKFileUtils.cs:77 | no separator comes before the index where the split cuts |
| StringUtils.IndexOfAnyUnique | GateKeeperSDK/GKFileUtils.cs:77 | the cut is at the only index that holds a separator with none before it, or at the end when there is none |
| StringUtils.SplitPiecesClean | GateKeeperSDK/GKFileUtils.cs:77 | no piece of a split holds a separator |
| StringUtils.SplitThenJoin | GateKeeperSDK/GKFileUtils.cs:77 | joining the pieces with the separator gives the text back |
| StringUtils.JoinThenSplit | GateKeeperSDK/GKStringUtils.cs:18-33 | splitting a join of separator-free texts gives the texts back |
| StringUtils.SplitAppend | GateKeeperSDK/GKFileUtils.cs:77 | splitting two texts glued by the separator splits each of them |
| StringUtils.ReplaceAbsent | GateKeeperSDK/GKFileUtils.cs:67 | String.Replace leaves a text without the pattern unchanged |
| StringUtils.LastIndexOfAny | GateKeeperSDK/GKFile.cs:139 | LastIndexOf gives -1 or an index inside the text that holds the character |
| StringUtils.LastIndexOfAnyAfter | GateKeeperSDK/GKFile.cs:139 | the character does not occur after the index LastIndexOf gives, and nowhere when it gives -1 |
| StringUtils.LastIndexUnique | GateKeeperSDK/GKFile.cs:139 | LastIndexOf gives the only index that holds the character with none after it, or -1 |
| StringUtils.SplitLast | GateKeeperSDK/GKFile.cs:119-120 | the last piece of a split is the text after the last separator |
| StringUtils.SplitSeveral | GateKeeperSDK/GKFile.cs:119-120 | a text with a separator splits into more than one piece |
| FileUtils.NonblankPathSegments | GateKeeperSDK/GKFileUtils.cs:135-146 | keeps exactly the non-empty strings |
| FileUtils.NonblankAppend | GateKeeperSDK/GKFileUtils.cs:135-146 | the kept strings stay in their order: filtering a concatenation filters each part |
| FileUtils.NonblankKeeps | GateKeeperSDK/GKFileUtils.cs:135-146 | a list without blanks is unchanged |
| FileUtils.ParsePath | GateKeeperSDK/GKFileUtils.cs:75-78 | no segment is empty or holds a '/' |
| FileUtils.ParseEmpty | GateKeeperSDK/GKFileUtils.cs:75-78 | "" has no segments |
| FileUtils.ParseSegment | GateKeeperSDK/GKFileUtils.cs:75-78 | a non-empty text without '/' is its only segment |
| FileUtils.ParseGlued | GateKeeperSDK/GKFileUtils.cs:75-78 | the segments of x + "/" + y are those of x, then those of y |
| FileUtils.ParseLeadingSlash | GateKeeperSDK/GKFileUtils.cs:75-78 | a leading '/' adds no segment |
| FileUtils.JoinParse | GateKeeperSDK/GKFileUtils.cs:64-78 | parsing texts joined with '/' gives the segments of each text in turn |
| FileUtils.ParseAllNonblank | GateKeeperSDK/GKFileUtils.cs:64-78 | dropping blank arguments changes no segment |
| FileUtils.JoinPathAsWritten | GateKeeperSDK/GKFileUtils.cs:64-68 | joinPath of only blank arguments is "" |
| FileUtils.JoinPathAsWrittenAgrees | GateKeeperSDK/GKFileUtils.cs:64-68 | for arguments without '/' and '\\' the literal replacement finds nothing, and the written joinPath equals the intended one |
| FileUtils.JoinPathAsWrittenRoundTrip | GateKeeperSDK/GKFileUtils.cs:64-78 | parsePath(joinPath(xs)) == xs when every element is non-empty and holds neither '/' nor '\\' |
| FileUtils.JoinPathAsWrittenKeepsDoubleSlash | GateKeeperSDK/GKFileUtils.cs:67 | joinPath("a/", "b") is "a//b" as written and "a/b" as intended |
| FileUtils.JoinPathAsWrittenDropsSegments | GateKeeperSDK/GKFileUtils.cs:67 | joinPath("a", "\\", "+", "b") is "a/b" as written: two segments are lost |
| FileUtils.CollapseSlashes | GateKeeperSDK/GKFileUtils.cs:67 | collapsing leaves no two neighbouring slashes and keeps the first character |
| FileUtils.CollapseParse | GateKeeperSDK/GKFileUtils.cs:67 | collapsing slash runs keeps the segments |
| FileUtils.CollapseFixed | GateKeeperSDK/GKFileUtils.cs:67 | a text without double slashes is left unchanged |
| FileUtils.CollapseIdempotent | GateKeeperSDK/GKFileUtils.cs:67 | collapsing twice is collapsing once |
| FileUtils.JoinPath | GateKeeperSDK/GKFileUtils.cs:64-68 | the intended joinPath has no double slash and is "" for only blank arguments |
| FileUtils.JoinPathParse | GateKeeperSDK/GKFileUtils.cs:64-78 | the segments of a joined path are the segments of the arguments, in order |
| FileUtils.JoinPathRoundTrip | GateKeeperSDK/GKFileUtils.cs:64-78 | parsing the join of non-blank, slash-free segments gives them back |
| FileUtils.ParseThenJoin | GateKeeperSDK/GKFileUtils.cs:64-78 | joining the segments of a path and parsing again gives the same segments |
| FileUtils.AddExtension | GateKeeperSDK/GKFileUtils.cs:87-100 | an empty path gives "" and an empty extension gives the path. Otherwise the result is the path, a '.' and the extension |
| Files.NewFile | GateKeeperSDK/GKFile.cs:35-39 | the two-argument constructor has no card path and size 0 |
| Files.NewSizedFile | GateKeeperSDK/GKFile.cs:48-53 | FileSize is the constructor's size argument |
| Files.IsDirectory | GateKeeperSDK/GKFile.cs:97-103 | Directory holds exactly when the type is DIRECTORY |
| Files.Extension | GateKeeperSDK/GKFile.cs:111-123 | none for a directory. For a file it is present exactly when the name holds '\\' or '.', and it is then the text after the last of them |
| Files.FilenameBase | GateKeeperSDK/GKFile.cs:131-146 | none exactly for a directory. For a file it is the prefix before the last '.', or the whole name when the name has no '.' |
| Files.NameSplitsAtLastDot | GateKeeperSDK/GKFile.cs:119-144 | for a file whose name holds '.' and no '\\', FilenameBase + "." + Extension == name |
| Files.AddExtensionSplitsBack | GateKeeperSDK/GKFile.cs:111-146 | a file named addExtension(base, ext), with ext free of '.' and '\\', has base and ext as FilenameBase and Extension |
| Files.SetCardPath | GateKeeperSDK/GKFile.cs:172-175 | a card path is set and nothing else changes. When neither argument has a backslash, joinPath as written has no backslash either, and its segments are the parent path's, then the name's |
| Files.ParentCardPath | GateKeeperSDK/GKFile.cs:182-200 | none without a card path or with at most one segment; otherwise a path starting with "/". When the card path has no backslash, its segments are all the segments but the last |
| Files.ParentOfSetCardPath | GateKeeperSDK/GKFile.cs:172-200 | for a backslash-free parent path and name, the parent of parent/name has the segments of parent |
| FileUtils.JoinPathAsWrittenParse | GateKeeperSDK/GKFileUtils.cs:62-68 | without a backslash in the arguments the literal replacement finds nothing: joinPath is the plain join of the non-blank arguments, and its segments are theirs |
| FileUtils.ParsePathNoneOf | GateKeeperSDK/GKFileUtils.cs:75-79 | the segments of a path without a character do not hold it |
| Cards.CommandWords | GateKeeperSDK/Card.cs:353-359 | the command text is the verb, the arguments and the prefixed path, separated by single spaces. Arguments that join to "" count as none |
| Cards.CommandBytes | GateKeeperSDK/Card.cs:366-369 | the wire bytes are the ASCII command followed by CR LF |
| Cards.CommandLineEnd | GateKeeperSDK/Card.cs:366-369 | the first CR LF of the command bytes is the one appended |
| Cards.CommandReadsBack | GateKeeperSDK/Card.cs:316-322 | the one channel-1 frame SendCommand writes reads back as one command line holding the command |
| Cards.GlobularPath | GateKeeperSDK/Card.cs:376-387 | "" becomes "*" and any other path becomes path + "/*": its '/'-pieces plus one "*" |
| Cards.CheckMultiplexer | GateKeeperSDK/Card.cs:338-344 | succeeds exactly when connected, and otherwise fails with NotConnected |
| Cards.Disconnect | GateKeeperSDK/Card.cs:190-207 | leaves the card disconnected with the port closed. It is a no-op when already disconnected. The logs are kept |
| Cards.DisconnectIdempotent | GateKeeperSDK/Card.cs:190-207 | disconnecting twice is disconnecting once |
| Cards.Guard | GateKeeperSDK/Card.cs:244-248 | an I/O failure disconnects the card and is passed on; any other result is left alone |
| Cards.GuardIdempotent | GateKeeperSDK/Card.cs:132-136 | disconnecting again at an outer catch changes nothing |
| Cards.SendCommand | GateKeeperSDK/Card.cs:316-322 | with no multiplexer it fails with NotConnected before anything is written. Otherwise it writes exactly one command packet |
| Cards.GetCommandResponse | GateKeeperSDK/Card.cs:328-333 | reading a reply only consumes inbound bytes, and the reply carries no data stream |
| Cards.ReadReply | GateKeeperSDK/Card.cs:328-333 | the reply is the parsed command line read from the frames |
| Cards.Call | GateKeeperSDK/Card.cs:235-253 | writes exactly the command packet. With no multiplexer it fails with NotConnected. An I/O failure disconnects |
| Cards.CallFrames | GateKeeperSDK/Card.cs:235-253 | the result is the parsed reply line and the card stays connected |
| Cards.Get | GateKeeperSDK/Card.cs:273-298 | writes exactly the command packet. A reply without data is never a 150. An I/O failure disconnects |
| Cards.GetRefused | GateKeeperSDK/Card.cs:279-284 | a reply other than 150 is returned as it is, and nothing more is read |
| Cards.GetDownloads | GateKeeperSDK/Card.cs:286-287 | after a 150 the status comes from the line after the data, and the data from the channel-2 payloads |
| Cards.GetOneDataFrame | GateKeeperSDK/Card.cs:279-287 | 150, one data frame and a reply frame give the reply with that frame's payload as data |
| Cards.GetExchange | GateKeeperSDK/Card.cs:273-287 | a 150 reply, one data frame and a status reply give that status and message with exactly the data, and the card stays connected |
| Cards.GetScenario | GateKeeperSDK/Card.cs:273-287 | "150 ready", 256 data bytes and "226 complete" give (226, "complete") with exactly those bytes |
| Cards.Srft | GateKeeperSDK/Card.cs:143-147 | sends "SRFT <stamp> /apps/vault/data/<path>" through Call, with the 12-hour stamp of Timestamps.FormatAsWritten |
| Cards.Put | GateKeeperSDK/Card.cs:105-141 | with no multiplexer it fails with NotConnected. An I/O failure disconnects |
| Cards.Upload | GateKeeperSDK/Card.cs:117-130 | an upload of n bytes writes at least n/512 packets, and only an I/O failure disconnects |
| Cards.UploadCount | GateKeeperSDK/Card.cs:117-120 | a MemoryStream of n bytes is read in exactly ceil(n/512) chunks: at least n/512 of them, enough to hold n bytes in 512-byte units |
| Cards.PutRefused | GateKeeperSDK/Card.cs:110-115 | a STOR reply other than 150 is returned, and nothing but the STOR packet is written |
| Cards.UploadIncomplete | GateKeeperSDK/Card.cs:122-127 | a post-upload reply other than 226 is returned, and SRFT is never sent |
| Cards.UploadStamps | GateKeeperSDK/Card.cs:122-130 | after 226 the SRFT packet, carrying the 12-hour stamp as written, follows the data packets, and its reply is the result |
| Cards.PutIncomplete | GateKeeperSDK/Card.cs:105-127 | the whole exchange: the STOR packet, the data packets of the contents, then the non-226 reply |
| Cards.PutStamps | GateKeeperSDK/Card.cs:105-130 | the whole exchange: STOR, the data packets, SRFT with the 12-hour stamp as written, then the SRFT reply as the result |
| Cards.List | GateKeeperSDK/Card.cs:44-48 | sends LIST with the globular path through Get |
| Cards.FreeMemory | GateKeeperSDK/Card.cs:54-57 | sends MLST with the empty path through Get |
| Cards.Delete | GateKeeperSDK/Card.cs:64-67 | sends DELE through Call |
| Cards.DeletePath | GateKeeperSDK/Card.cs:74-77 | sends RMD through Call |
| Cards.GetFile | GateKeeperSDK/Card.cs:84-87 | sends RETR through Get |
| Cards.CreatePath | GateKeeperSDK/Card.cs:94-97 | sends MKD through Call |
| Cards.StatusFrameLine | GateKeeperSDK/Response.cs:87-96 | a one-frame reply "status message" CR LF parses to (status, message) |

## Left out

- Helpers.HexStringToByteArray: treats every digit pair that is not two hex digits as a format failure. The .NET digit parser behind Convert.ToByte(_, 16) also takes a "+" sign before a single digit, and rejects a "-" sign with an ArgumentException; these corner cases of the runtime are not modelled. A character above U+FFFF counts once here but twice in `hex.Length`, so a trailing one is OutOfRange in the model (and in Helpers.HexParseFault) where the source parses its surrogate pair and throws a FormatException. A lone surrogate cannot be written as a string here at all.
- Strings are sequences of Unicode scalar values, while .NET strings are sequences of
  UTF-16 code units. Lengths, indices and Substring positions agree for text below
  U+10000, which covers the ASCII command lines and Latin-1 replies; characters above
  it and lone surrogates are not modelled.
- Bluetooth.cs, the Card constructor, Connect, Dispose and SetSerialPortParameters are
  left out. They are device discovery, pairing and serial-port set-up, with no pure
  behaviour to state. A card is connected or not, and its multiplexer wraps a port
  value.
- The Put, Get and Call wrappers set the `_isActive` flag, which the file never reads,
  so the flag is not modelled.
- CreateDataFile's temporary file is not modelled: a download's data file is the byte
  sequence `sink`.
- `SerialPort.Read` blocking and retrying is not modelled. The inbound bytes are a
  finite sequence, and running out of them is an IOException (`IoFailure`).
- The `Thread.Sleep` between upload chunks is timing only and is left out.
- `DateTime.Now` in Srft is not read. The time is a parameter, and its fields are
  checked against the ranges System.DateTime allows.
- Card.cs:145, Response.cs:91 and Response.cs:129 format and parse in the current
  culture. The model takes that culture to use the Gregorian calendar and "-" as its
  negative sign. Under another default calendar (Thai Buddhist, Um Al-Qura) the year,
  month and day of the SRFT stamp would differ from Timestamps.FormatAsWritten.
- `Encoding.Default` is taken to be Latin-1 (byte value = character code). The real code
  page depends on the machine.
- Null is modelled only where the source handles it. These cases are:
  - a null argument array of a command (Call, Get), modelled as `None`;
  - a null reply message (`None`);
  - a card path not yet assigned (`None`);
  - a null element of joinPath's arguments, which nonblankPathSegments drops exactly
    as it drops "".
  Everywhere else the model's strings and arrays are never null. The source throws on
  a null in these places, and those exceptions are not modelled:
  - parsePath (GKFileUtils.cs:77) and joinPath with a null array (GKFileUtils.cs:138);
  - GKStringUtils.Join (GKStringUtils.cs:20);
  - hexStringToByteArray (Helper.cs:18) and asString (Helper.cs:31);
  - GlobularPath, so List(null) (Card.cs:378);
  - Put with null contents, which throws an ArgumentNullException after the 150 reply
    (Card.cs:117);
  - GKFile's Extension and FilenameBase on a null name (GKFile.cs:119, 139).
  A null element inside a command's argument array is not modelled either.
- The source's other exceptions become `Err` values. These are a negative payload size,
  a bad or overflowing status number and "Not Connected". They are passed through
  without a Disconnect, as in the source.
- GKFileUtils.parseFile (a regular expression over LIST output) and readFile (a
  StreamReader) are left out. So are Response.readDataFile, Response.Dispose and the
  field-setting Response constructors (status, message and stream only).
- GKFile's Name, Type and CardPath accessors are plain fields of the datatype.
- The test console, the KeePass and WinForms glue and the thread-pool bridges of the
  web-request layer are concurrency and UI code outside the protocol stack.
- Cards.Put: its own contract states only "Not Connected" and disconnect-on-I/O-failure.
  What it writes and returns is proved for given reply frames by Cards.PutRefused,
  Cards.PutIncomplete and Cards.PutStamps.
- Cards.Upload: its own contract bounds the number of packets from below. The exact
  packets are given by Cards.UploadIncomplete and Cards.UploadStamps.
- Cards.Get: the data stream of a download is stated for given frames, by
  Cards.GetDownloads, rather than for every input.
- Packets.DecodeEncoded: stated for payloads below 65531 bytes. Above that the 16-bit
  size field wraps, and Packets.SizeFieldRoundTrip states only the wrap-around.
- StringUtils.Split: its own contract states only that there is at least one piece, so
  that unfolding it stays cheap in the proofs that use it. The rest of String.Split is
  stated by StringUtils.SplitNone, SplitCons, SplitPiecesClean, SplitThenJoin,
  SplitAppend and SplitLast.
- StringUtils.Replace: carries no contract of its own. String.Replace is stated by
  StringUtils.ReplaceAbsent, ReplaceMatch and ReplaceSkip.
- StringUtils.LastIndexOfAny: its own contract states the range and that the index
  holds a separator. That none follows it is StringUtils.LastIndexOfAnyAfter, and
  uniqueness is StringUtils.LastIndexUnique.
- Files.SetCardPath: the segments of the new card path are stated only when neither
  argument has a backslash. With one, the literal replacement in joinPath (first row
  under Findings) can drop the segments `\` and `+`
  (FileUtils.JoinPathAsWrittenDropsSegments).
- Files.ParentCardPath: the segments of the parent are stated only for a card path
  without a backslash, for the same reason: the parent of "/a/\/+/b/c" comes out as
  "/a/b".
- Files.ParentOfSetCardPath: requires a parent path and a file name without a
  backslash, for the same reason.
- Multiplexing.Write: a port write never fails in the model. `SerialPort.Write` can throw
  an IOException, which Call, Get and Put catch to disconnect (Card.cs:132-136,
  244-248, 289-293). Only failing reads are modelled as `IoFailure`.
- Cards.CommandWords: stated for a verb, path and arguments without spaces. Spaces
  inside them would make the split ambiguous, and the card's parser is not part of
  this model.

## Findings

| source | as written | input that shows it | evidently intended | confidence | as-written member | corrected member |
|---|---|---|---|---|---|---|
| GateKeeperSDK/GKFileUtils.cs:67 | `Replace("/\\/+/", "/")` replaces the literal five-character text `/\/+/`, because String.Replace takes no regular expression | joinPath("a/", "b") gives "a//b" (FileUtils.JoinPathAsWrittenKeepsDoubleSlash). joinPath("a", "\\", "+", "b") gives "a/b" (FileUtils.JoinPathAsWrittenDropsSegments) | every run of '/' collapsed to one, so "a/b" in the first case and "a/\\/+/b" in the second (FileUtils.JoinPathRoundTrip, FileUtils.CollapseParse) | not executed | FileUtils.JoinPathAsWritten | FileUtils.JoinPath |
| GateKeeperSDK/Card.cs:145 | the SRFT stamp uses the format "yyyyMMddhhmmss", whose "hh" is the hour on a 12-hour clock with no AM/PM | 01:30 and 13:30 on the same day get the same stamp (Timestamps.FormatAsWrittenCollides) | "yyyyMMddHHmmss", a 24-hour stamp that determines the time (Timestamps.FormatRoundTrip, Timestamps.FormatInjective) | not executed | Timestamps.FormatAsWritten | Timestamps.Format |

Like the program, the rest of the model uses the members as written:
Files.SetCardPath and Files.ParentCardPath join with FileUtils.JoinPathAsWritten, and
Cards.Srft stamps with Timestamps.FormatAsWritten. The corrected members and their
properties stand on their own as the intended behaviour.
