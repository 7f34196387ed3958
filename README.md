# go-steam in Dafny

A model of the core of go-steam, a Go client for two Valve protocols. The
first is the Source-engine query protocol over UDP (A2S_INFO, A2S_PLAYER and
its challenge exchange). The second is the Source RCON protocol over TCP
(the authentication handshake, and commands whose replies may span several
frames). The model proves properties of that model.

One Dafny module models each Go file:

- `wire.dfy` (Wire): the little-endian readers and the NUL-terminated string
  reader of `wire.go`, and the writers that append to a `bytes.Buffer`.
  - A reader takes the unread bytes of the buffer.
  - It returns `Ok(Read(value, rest))`, or `Err(e)` where the Go code panics
    with `e`.
  - `Buffer` is the byte buffer the writers append to.
- `comm.dfy` (Comm): the current revision's messages:
  - the four closed enumerations;
  - the info request and response, with the EDF (extra data flag) byte that
    says which optional fields follow;
  - the player list request, the challenge reply and the player list;
  - the RCON request and response frames.
- `server.dfy` (Server): `Server` and `Connect`.
  - This covers the RCON authentication handshake, the `rconInitialized`
    flag, `Info`, the two-phase `PlayersInfo`, and `Send` with its mirror
    frame.
  - Sockets are `Net.Endpoint` objects whose replies and send outcomes are
    scripted.
- `rconsocket.dfy`, `tcpsocket.dfy` (RconSocket, TcpSocket): the
  length-prefixed TCP receive loop and the send of both TCP sockets.
- `udpsocket.dfy`, `socket.dfy` (UdpSocket, Socket): the two revisions of the
  UDP socket.
  - `send` checks for a short write.
  - `receivePacket` reads into a 1500-byte array.
  - `receive` turns away split packets and strips the 4-byte header.
- The older revision, one module per file:
  - `a2splayerresponse.dfy` (fills a preallocated array in place);
  - `challengeresponse.dfy`, `a2splayerrequest.dfy`, `challengerequest.dfy`;
  - `legacyrconrequest.dfy`, `legacyrconauthrequest.dfy`, `legacyrconresponse.dfy`;
  - `responsepacket.dfy`.
  - Each revision is related to the current one by lemmas.
- `net.dfy` (Net): scripted stand-ins for the connections.
  - A TCP stream is a script of chunks and read errors. Its end is `io.EOF`.
  - A UDP connection is a script of datagrams. Its end is an expired read
    deadline.
  - Write outcomes are scripted too, and what is written is logged.
- `errors.dfy` (Errors): the error values, `Option` and `Result`.

Conventions:

- Go strings are byte strings, modelled as `seq<byte>` with a `byte` newtype.
  Strings read from the wire keep their terminating NUL, as `readString` does.
- Some code recovers from a panic and returns its error; that is modelled as
  `Err(e)`. A panic that nothing recovers is `Err(Panic(e))`. The older
  decoders, the UDP slicing and `isPlayersInfoChallengeResponse` behave this
  way.
- `int32(...)` conversions wrap, and `Wire.Wrap32` writes that out.
- Ids that `rand.Int31` would draw are parameters.
- Floats are kept as their raw 32-bit patterns.
- The source's own inconsistencies:
  - `server.go` calls `newUDPSocket(dialFn, addr)`, but `udpsocket.go` declares
    `newUDPSocket(addr)`.
  - `rconRequest.go`, `rconauthrequest.go` and `responsepacket.go` do not
    compile as written. They are modelled by their evident intent, and their
    module comments say which reading was taken.
  - `rconRequest.go` and `rconauthrequest.go` call `writeLilEndianInt32` and
    `writeNullTerminator`, which none of the files this model draws on
    defines. They are read as
    `writeLong` (the four little-endian bytes of an int32) and `writeNull`
    (one NUL byte).

## Model

| member | source | states |
|---|---|---|
| Wire.Wrap32 | comm.go:367 | int32(x) keeps an in-range x and is congruent to x modulo 2^32 in general |
| Wire.LeUintOfLeBytes | wire.go:116-118 | reading back the w little-endian bytes of u gives u whenever u fits in w bytes |
| Wire.LeBytesOfLeUint | wire.go:40-43 | re-encoding the little-endian value of a byte string gives that byte string |
| Wire.SignedOfEncodeSigned | wire.go:116-118 | a signed number survives the two's complement encoding and decoding at any width that holds it |
| Wire.EncodeSignedOfSigned | wire.go:40-43 | encoding the signed value of a byte string gives the byte string back |
| Wire.SignedRange | wire.go:35-53 | a decoded signed value lies in the two's complement range of its width |
| Wire.EncodeLong | wire.go:116-118 | binary.Write of an int32 appends exactly four bytes |
| Wire.DecodeLongOfEncodeLong | wire.go:40-43 | the four bytes of an int32 decode back to it |
| Wire.EncodeLongOfDecodeLong | wire.go:40-43 | any four bytes are the encoding of the int32 they decode to |
| Wire.ReadFull | wire.go:28-33 | io.ReadFull of n bytes succeeds iff n bytes remain, takes exactly them; a shortfall is io.EOF on an empty buffer, io.ErrUnexpectedEOF otherwise |
| Wire.ReadByte | wire.go:21-26 | succeeds iff a byte remains, consumes exactly that byte, fails with io.EOF otherwise |
| Wire.ReadBytes | wire.go:28-33 | a negative n fails (make panics); otherwise succeeds iff n bytes remain and consumes exactly n, failing as io.ReadFull does |
| Wire.ReadShort | wire.go:35-38 | succeeds iff 2 bytes remain; the value is their signed little-endian value and exactly 2 bytes are consumed |
| Wire.ReadLong | wire.go:40-43 | succeeds iff 4 bytes remain; signed little-endian value, exactly 4 bytes consumed, io.EOF or io.ErrUnexpectedEOF otherwise |
| Wire.ReadULong | wire.go:45-48 | succeeds iff 4 bytes remain; unsigned little-endian value, exactly 4 bytes consumed |
| Wire.ReadLongLong | wire.go:50-53 | succeeds iff 8 bytes remain; signed little-endian value, exactly 8 bytes consumed |
| Wire.ReadFloat | wire.go:76-79 | consumes 4 bytes and yields the little-endian uint32 bit pattern that Float32frombits reinterprets |
| Wire.ReadString | wire.go:55-62 | a result is a string ending at its only NUL, and the input is that string followed by the rest; failure is io.EOF |
| Wire.ReadStringByteByByte | wire.go:63-73 | the byte-at-a-time loop over a non-Buffer reader returns exactly what the fast path returns, error included |
| Wire.ReadStringFailsWithoutNul | wire.go:59-60 | readString fails exactly when no NUL is left, and then with io.EOF |
| Wire.ReadStringOf | wire.go:55-62 | a wire string followed by anything reads back as that string, leaving what follows |
| Wire.ReadStringExtend | wire.go:59 | readString never looks past the NUL: appended bytes stay unread |
| Wire.ReadStringOfWriteString | wire.go:107-110 | round trip: writeString(v) of a NUL-free v reads back as v plus its NUL and consumes exactly what was written |
| Wire.ReadFullExtend | wire.go:23 | io.ReadFull of n bytes never looks past them |
| Wire.ReadFullOf | wire.go:30 | io.ReadFull of len(v) bytes from v followed by anything gives v |
| Wire.ReadByteOf | wire.go:21-26 | a byte followed by anything reads back as that byte |
| Wire.ReadByteExtend | wire.go:21-26 | readByte is unaffected by bytes appended to its input |
| Wire.ReadBytesOf | wire.go:28-33 | readBytes of len(v) from v followed by anything gives v |
| Wire.ReadBytesExtend | wire.go:28-33 | readBytes is unaffected by bytes appended to its input |
| Wire.ReadLongOfWriteLong | wire.go:116-118 | round trip: the four bytes writeLong(x) appends read back as x with nothing else consumed |
| Wire.ReadShortOfEncodeShort | wire.go:35-38 | the two little-endian bytes of an int16 read back as it |
| Wire.ReadShortExtend | wire.go:35-38 | readShort is unaffected by bytes appended to its input |
| Wire.ReadLongLongOfEncodeLongLong | wire.go:50-53 | the eight little-endian bytes of an int64 read back as it |
| Wire.ReadULongOf | wire.go:45-48 | four bytes followed by anything read back as their unsigned value |
| Wire.ToInt | wire.go:81-99 | the integer cases succeed and any value of a type without a case fails with errBadData |
| Wire.ToIntPreservesValue | wire.go:82-90 | toInt keeps the value of a byte, int16, int32 and int64 |
| Wire.Buffer.constructor | comm.go:177 | a new buffer is empty |
| Wire.Buffer.Write | wire.go:102 | Write appends exactly its argument |
| Wire.Buffer.WriteByte | wire.go:113 | WriteByte appends exactly its byte |
| Wire.EncodeString | wire.go:107-110 | writeString's bytes are the string and one NUL; for a NUL-free string they form a wire string |
| Wire.WriteRequestPrefix | wire.go:101-105 | appends exactly FF FF FF FF |
| Wire.WriteString | wire.go:107-110 | appends the string and a NUL |
| Wire.WriteByte | wire.go:112-114 | appends exactly the byte |
| Wire.WriteLong | wire.go:116-118 | appends the four little-endian bytes of the int32 |
| Wire.WriteNull | wire.go:120-122 | appends exactly one NUL |
| Comm.DecodeServerType | comm.go:22-34 | accepts exactly 'd', 'l', 'p', never yields STInvalid, and gives errBadData for any other byte |
| Comm.DecodeEnvironment | comm.go:62-76 | accepts exactly 'l', 'w', 'm', 'o', never yields EInvalid, errBadData otherwise |
| Comm.DecodeVisibility | comm.go:104-115 | accepts exactly 0 and 1, never yields VInvalid, errBadData otherwise |
| Comm.DecodeVac | comm.go:140-151 | accepts exactly 0 and 1, never yields the invalid value, errBadData otherwise |
| Comm.EnumCodesRoundTrip | comm.go:40-50 | every valid enum value decodes from its code, and every accepted byte is the code of what it decodes to ('o' being Mac's second code) |
| Comm.InfoRequestBytes | comm.go:176-182 | 25 bytes: the FF FF FF FF prefix, 'T', "Source Engine Query" with no NUL inside, and the terminating NUL |
| Comm.MarshalInfoRequest | comm.go:176-182 | the request is FF FF FF FF 'T' "Source Engine Query" NUL, 25 bytes |
| Comm.HasFlag | comm.go:250-263 | a set flag bit means edf is at least the flag, and every edf from the flag up to twice the flag has it set |
| Comm.HasFlagIsBitwiseAnd | comm.go:250-263 | the arithmetic flag test agrees with Go's edf&flag != 0 for all five EDF flags and every byte |
| Comm.ReadNames | comm.go:231-234 | the four strings read are wire strings, and at least one byte is consumed; failure is io.EOF |
| Comm.ReadCounts | comm.go:235-238 | succeeds iff 5 bytes remain: the sign-extended app id, players, max players, bots; a 1-byte remainder is io.ErrUnexpectedEOF |
| Comm.ReadKinds | comm.go:239-242 | succeeds iff 4 bytes remain and each decodes; the four enums are then valid; failure is io.EOF or errBadData |
| Comm.ParseMandatory | comm.go:226-243 | an empty reply is io.EOF, a header other than 'I' errBadData; a success has header 'I', keeps the protocol byte and yields valid fields |
| Comm.ExtraPort | comm.go:250-252 | a clear Port flag reads nothing; a read changes only Port |
| Comm.ExtraSteamId | comm.go:253-255 | a clear SteamID flag reads nothing; a read changes only SteamID |
| Comm.ExtraSourceTv | comm.go:256-259 | a clear SourceTV flag reads nothing; a read changes only the SourceTV port and name |
| Comm.ExtraKeywords | comm.go:260-262 | a clear Keywords flag reads nothing; a read changes only Keywords |
| Comm.ExtraGameId | comm.go:263-266 | a clear GameID flag reads nothing; a read changes GameID and sets ID to its low 24 bits |
| Comm.ParseExtra | comm.go:249-266 | a successful parse of the optional fields is exactly the EDF rules applied to the fields read |
| Comm.ApplyExtra | comm.go:249-266 | only the optional fields and ID change; an EDF of 0 changes nothing; with GameID present, ID is below 2^24 |
| Comm.UnmarshalInfo | comm.go:219-268 | an empty reply is io.EOF, a non-'I' header errBadData, and a success requires the mandatory fields to parse |
| Comm.UnmarshalInfoWithoutExtra | comm.go:244-247 | with no byte after Version the parse succeeds and Port, SteamID, SourceTV, Keywords and GameID keep the receiver's values |
| Comm.UnmarshalInfoFields | comm.go:230-266 | a success is the mandatory fields then the EDF rules; with the GameID flag, ID is GameID & 0xFFFFFF |
| Comm.ReadNamesExtend | comm.go:231-234 | the four strings are read the same whatever follows |
| Comm.ReadCountsExtend | comm.go:235-238 | the counts are read the same whatever follows |
| Comm.ReadKindsExtend | comm.go:239-242 | the enums are read the same whatever follows |
| Comm.ParseMandatoryExtend | comm.go:226-243 | the mandatory fields are read the same whatever follows them |
| Comm.UnmarshalInfoTruncated | comm.go:219-243 | a reply cut anywhere before the end of Version is an error, never a zero-filled response |
| Comm.ParseMandatoryTruncated | comm.go:226-243 | the mandatory fields of a cut reply do not parse |
| Comm.ReadNamesOf | comm.go:231-234 | four encoded wire strings read back as themselves |
| Comm.ReadCountsOf | comm.go:235-238 | encoded counts read back as themselves |
| Comm.ReadKindsOf | comm.go:239-242 | the codes of four valid enum values read back as those values |
| Comm.ParseMandatoryOfEncoding | comm.go:226-243 | round trip of the mandatory fields |
| Comm.ApplyExtraInSteps | comm.go:249-266 | the EDF rules are the five field updates in wire order |
| Comm.ExtraPortOf | comm.go:250-252 | the encoded Port field reads back under its flag |
| Comm.ExtraSteamIdOf | comm.go:253-255 | the encoded SteamID reads back under its flag |
| Comm.ExtraSourceTvOf | comm.go:256-259 | the encoded SourceTV port and name read back under their flag |
| Comm.ExtraKeywordsOf | comm.go:260-262 | the encoded Keywords read back under their flag |
| Comm.ExtraGameIdOf | comm.go:263-266 | the encoded GameID reads back under its flag, with ID following it |
| Comm.ParseExtraOfEncoding | comm.go:249-266 | decoding the encoded optional fields applies exactly the EDF rules |
| Comm.UnmarshalInfoOfEncoding | comm.go:219-268 | round trip: every field a server encodes is recovered, and fields the EDF leaves out keep the receiver's values |
| Comm.PlayersInfoRequestBytes | comm.go:278-284 | 9 bytes: the FF FF FF FF prefix, 'U', and an int32 that decodes to the challenge cut to 32 bits, so to the challenge itself when it fits |
| Comm.MarshalPlayersInfoRequest | comm.go:278-284 | the request is FF FF FF FF 'U' and the challenge as a little-endian int32, 9 bytes |
| Comm.IsPlayersInfoChallengeResponse | comm.go:286-288 | true iff the first byte is 'A'; an empty reply panics with an index error |
| Comm.UnmarshalChallenge | comm.go:294-307 | empty is io.EOF, a non-'A' header errBadData; succeeds iff 'A' and 4 more bytes, with their signed value |
| Comm.UnmarshalChallengeOfEncoding | comm.go:294-307 | round trip: 'A' ++ LE32(x) gives x, whatever follows |
| Comm.ChallengeEchoed | comm.go:282 | the second player request carries the reply's four challenge bytes unchanged |
| Comm.ReadPlayer | comm.go:327-332 | a player entry's name is a wire string and at least one byte is consumed |
| Comm.ReadPlayers | comm.go:326-334 | the list keeps the prior players in front, grows by at most count, and has no error exactly when count entries were read |
| Comm.DecodePlayersInfo | comm.go:314-336 | io.EOF on an empty reply or a missing count, errBadData on a non-'D' header, prior players kept, success iff count entries are appended |
| Comm.PlayersInfoResponse.constructor | comm.go:310-312 | a new response has no players |
| Comm.PlayersInfoResponse.UnmarshalBinary | comm.go:314-336 | the loop leaves the player list and error that DecodePlayersInfo gives for the prior list and the reply |
| Comm.ReadNextPlayer | comm.go:327-333 | one pass of the loop reads the next entry; a failure ends the list with that error |
| Comm.DecodePlayersInfoHeader | comm.go:321-325 | after a 'D' header the count byte says how many entries are read |
| Comm.ReadPlayersStep | comm.go:326-334 | a failed entry ends the list with its error; a read one is appended and the rest follow |
| Comm.ReadPlayerOfEncoding | comm.go:327-332 | an encoded entry reads back as its player, the chunk index dropped |
| Comm.ReadPlayersOfEncoding | comm.go:326-334 | count encoded entries read back as those players, in wire order |
| Comm.DecodePlayersInfoOfEncoding | comm.go:314-336 | round trip: a 'D' reply with count entries appends exactly those players, in order, without error |
| Comm.NewRconRequest | comm.go:365-372 | type, body and id as given; size is len(body) + 10 whenever that fits an int32, and congruent to it otherwise |
| Comm.RconFrame | comm.go:374-383 | a frame is its body plus 14 bytes |
| Comm.MarshalRconRequest | comm.go:374-383 | the frame is LE size, LE id, LE type, then the body and two NULs |
| Comm.RconFrameLength | comm.go:365-383 | a request made by newRCONRequest marshals to size + 4 bytes |
| Comm.UnmarshalRconResponse | comm.go:396-408 | fewer than 12 bytes fail; at least 12 bytes with 0 <= size - 10 (int32 arithmetic) <= the bytes left succeed; a success has the three header int32s and exactly size - 10 body bytes |
| Comm.UnmarshalRconResponseSmallSize | comm.go:406 | a size below 10 fails on any frame shorter than 2^31 bytes |
| Comm.UnmarshalRconOfFrame | comm.go:396-408 | round trip: a frame whose size counts the bytes after it yields its size, id, type and body |
| Comm.UnmarshalRconOfRequest | comm.go:365-408 | round trip for what newRCONRequest and marshalBinary produce |
| Server.Authentication | server.go:142-191 | authenticate sends at most the auth frame, and on success has sent exactly it |
| Server.ReceiveResponse | server.go:154-166 | receiving and decoding a frame sends nothing |
| Server.InfoQuery | server.go:220-246 | Info sends at most the info request |
| Server.MirrorLoop | server.go:342-389 | the receive loop sends nothing |
| Server.ChallengeExchange | server.go:254-281 | the first request, if any, carries challenge 0; at most two requests go out; a reply comes only after a request was sent, and a reply after exactly one request does not start with 'A' |
| Server.PlayersQuery | server.go:249-290 | the socket ends as the challenge exchange leaves it; its errors are returned as they are; a player list comes only from a reply the exchange returned after a request |
| Server.Command | server.go:301-391 | at most the exec frame and then the mirror frame are sent, the exec frame first; an output comes only after both were sent |
| Server.Server.constructor | server.go:62-64 | a new server has its address and password, no sockets and the flag down |
| Server.Server.Init | server.go:101-112 | no address is an error and leaves the UDP socket as it was; a failed dial is its error; otherwise a new socket on the dialled (open) connection is held |
| Server.Server.Authenticate | server.go:142-191 | error and socket state are those of Authentication on the socket's prior state |
| Server.Server.InitRcon | server.go:114-140 | the result is that of authenticate on the new socket; the flag is raised exactly when it succeeds, and a failed authentication closes the new RCON socket |
| Server.Server.Close | server.go:194-199 | the UDP socket is always closed, the RCON socket exactly when the flag is up, and nothing else of either changes |
| Server.Server.Info | server.go:220-246 | result and socket state are those of InfoQuery |
| Server.Server.PlayersInfo | server.go:249-290 | result and socket state are those of the two-phase PlayersQuery |
| Server.Server.Send | server.go:293-392 | with the flag down it is ErrRCONNotInitialized and nothing is sent; otherwise result and socket state are those of Command |
| Server.Server.ReceiveReplies | server.go:336-391 | the loop's result and socket state are those of MirrorLoop from the start |
| Server.Connect | server.go:61-95 | the error is ConnectError's; the flag is up iff there was a password and no error; on success the sockets are open, on an error the UDP socket is closed |
| Server.ConnectError | server.go:61-95 | an empty address is ErrNoAddress and a failed UDP dial returns its error; no error iff the address is set, the UDP dial succeeded and, with a password, the RCON dial and authentication succeeded |
| Server.ClosedSocketFails | server.go:194-199 | on a closed socket, authenticate, Info, PlayersInfo, the receive loop and the exec-and-mirror exchange that Send runs once the RCON flag is up all fail with net.ErrClosed and change nothing (with the flag down, Send returns ErrRCONNotInitialized before any I/O) |
| Server.ReceiveResponseOfReply | server.go:154-166 | a well-formed frame is received as its fields |
| Server.AuthenticationOfReplies | server.go:168-186 | on two well-formed replies: success iff the first is type 0 and the second type 2, both with the request id; else ErrInvalidResponseID or ErrRCONAuthFailed |
| Server.AuthenticationNeverInvalidType | server.go:171-173 | authenticate never returns ErrInvalidResponseType unless the transport reported it: its check is unreachable |
| Server.MirrorLoopOnReply | server.go:357-384 | one frame of the loop: non-zero type aborts; before the echo the mirror id marks it, the exec id adds the body and any other id aborts; after it only the trailer succeeds |
| Server.MirrorLoopCollects | server.go:361-391 | the output is the exec-id bodies before the mirror's echo, concatenated in arrival order, ending at the trailer |
| Server.MirrorLoopEnd | server.go:361-377 | the mirror's echo followed by the trailer end the loop with the output so far |
| Server.CommandSendsExecThenMirror | server.go:301-329 | the exec frame is sent strictly before the mirror frame, the loop sends nothing, and an output needs both sent |
| Server.CommandOfReplies | server.go:301-391 | a whole command exchange sends both frames and returns the concatenated bodies |
| Server.InfoQueryOfReply | server.go:224-245 | Info sends the info request and decodes the reply into a zero response |
| Server.PlayersQueryRequests | server.go:254-281 | the first request carries challenge 0; a second is sent only after an 'A' reply that decodes, and carries its challenge |
| Server.ChallengeExchangeOfChallenge | server.go:264-281 | after an 'A' reply the reply parsed is the one to the request carrying its challenge |
| Server.DecodePlayerListReply | server.go:284-289 | a 'D' reply decodes into a fresh response as the players it lists |
| Server.ChallengeExchangeWithoutChallenge | server.go:254-264 | a first reply that is not 'A' is the one parsed |
| Server.PlayersQueryOfListReply | server.go:284-289 | a reply that decodes without error yields its players |
| Server.PlayersQueryWithChallenge | server.go:249-290 | the full exchange with a challenge yields the players and sends the requests with 0 and with the challenge |
| Server.PlayersQueryWithoutChallenge | server.go:249-290 | against a server that answers at once, one request is sent and the players come back |
| Net.ReadChunk | rconsocket.go:71 | conn.Read returns at most len(b) bytes, no bytes with an error, io.EOF at the end of the stream |
| Net.ReadFullStream | rconsocket.go:60 | io.ReadFull keeps what it has read, succeeds iff all n bytes came, and reports io.EOF only when no byte came |
| Net.StreamConn.constructor | rconsocket.go:17-22 | a connection starts with its scripts, nothing written and open |
| Net.StreamConn.Read | rconsocket.go:71 | on a closed connection net.ErrClosed and nothing read; otherwise b[:n] holds what ReadChunk delivers and b[n:] is as it was |
| Net.StreamConn.ReadDeadline | rconsocket.go:53 | SetReadDeadline fails with net.ErrClosed on a closed connection, and otherwise returns its scripted result |
| Net.StreamConn.WriteDeadline | rconsocket.go:30 | SetWriteDeadline fails with net.ErrClosed on a closed connection, and otherwise returns its scripted result |
| Net.StreamConn.Write | rconsocket.go:34 | on a closed connection net.ErrClosed and nothing written; otherwise the next scripted outcome, and only a successful write reaches the peer |
| Net.StreamConn.Close | rconsocket.go:26 | Close marks the connection closed and changes nothing else |
| Net.TeeRead | rconsocket.go:57-58 | a read through the TeeReader also appends what it delivered to the buffer; on a closed connection nothing is delivered and the error is net.ErrClosed |
| Net.ReadFullTee | rconsocket.go:57-60 | io.ReadFull through the TeeReader gives ReadFullStream's result (net.ErrClosed on a closed connection) and copies every byte read into the buffer |
| Net.ReadDatagram | udpsocket.go:51-52 | a datagram read into cap bytes is cut to cap; the end of the script is a deadline timeout |
| Net.WriteDatagram | udpsocket.go:34 | a datagram write reports at most len(p) bytes, and none with an error |
| Net.PacketConn.constructor | udpsocket.go:17-23 | a connection starts with its scripts, nothing sent and open |
| Net.PacketConn.Read | udpsocket.go:52 | on a closed connection net.ErrClosed; otherwise the next datagram, cut to len(b), is copied into b |
| Net.PacketConn.Deadline | udpsocket.go:47 | SetReadDeadline fails with net.ErrClosed on a closed connection, and otherwise returns its scripted result |
| Net.PacketConn.Write | udpsocket.go:34 | on a closed connection net.ErrClosed and nothing sent; otherwise the next scripted outcome, and the bytes that left are logged |
| Net.PacketConn.Close | udpsocket.go:28 | Close marks the connection closed and changes nothing else |
| Net.SendOn | server.go:149 | net.ErrClosed on a closed socket with nothing changed; otherwise the payload is logged exactly when the send succeeds |
| Net.ReceiveOn | server.go:154 | net.ErrClosed on a closed socket; otherwise the next scripted result, a timeout once none is left |
| Net.ClosedTransportFails | server.go:196 | after Close every send and every receive fails with net.ErrClosed and changes nothing |
| Net.Endpoint.constructor | server.go:107 | a socket starts with its transport |
| Net.Endpoint.Send | server.go:149 | the socket's send is SendOn on its state |
| Net.Endpoint.Receive | server.go:154 | the socket's receive is ReceiveOn on its state |
| Net.Endpoint.Close | server.go:196 | Close marks the socket closed and keeps its scripts and its log |
| RconSocket.Filled | rconsocket.go:70-71 | the buffer after one Read into make([]byte, total) has total bytes, the delivered ones first |
| RconSocket.Reframe | rconsocket.go:65-97 | a frame returned by the loop extends the bytes read before it |
| RconSocket.ReceiveFrame | rconsocket.go:46-60 | a deadline error is returned with the stream untouched; a failed prefix read returns its error; a frame starts with the four prefix bytes read |
| RconSocket.RconSocket.constructor | rconsocket.go:22 | the socket holds its connection |
| RconSocket.RconSocket.Close | rconsocket.go:25-27 | close closes the connection and changes nothing else |
| RconSocket.RconSocket.Send | rconsocket.go:29-44 | a failed write deadline (net.ErrClosed once closed) is returned before writing; otherwise the write's error, with the count unchecked |
| RconSocket.RconSocket.Receive | rconsocket.go:46-104 | the frame and the stream left are ReceiveFrame's for the deadline result (net.ErrClosed once closed) and the connection's stream |
| RconSocket.ReadBuffer | rconsocket.go:70-71 | the whole buffer after the Read is the delivered bytes and then zeros; a closed connection delivers none |
| RconSocket.ReceiveNeedsPrefix | rconsocket.go:53-60 | a deadline or prefix failure is returned; a frame needs the 4-byte prefix and starts with exactly it |
| RconSocket.ReceiveNonPositiveLength | rconsocket.go:65 | a length of zero or less returns the prefix alone |
| RconSocket.ReframeLength | rconsocket.go:70-83 | the loop adds at least total bytes, exactly total iff no Read was partial |
| RconSocket.ReceiveLength | rconsocket.go:60-103 | a frame with length L is at least 4 + L bytes, exactly 4 + L iff no Read came back short |
| RconSocket.ReceiveWholeFrame | rconsocket.go:57-103 | a frame arriving in one piece is returned exactly: prefix and L bytes, nothing after |
| RconSocket.ReceiveSplitFrameIsPadded | rconsocket.go:77 | an illustration of ReceiveLength: a 2-byte body over two Reads comes back as three bytes, with a zero from the first buffer |
| RconSocket.ReframeEofAborts | rconsocket.go:89-91 | io.EOF aborts the loop with io.EOF |
| RconSocket.ReframeIgnoresOtherFaults | rconsocket.go:84-92 | any other read error is dropped and the loop goes on as if that Read never happened |
| TcpSocket.TcpSocket.constructor | tcpsocket.go:21 | the socket holds its connection |
| TcpSocket.TcpSocket.Close | tcpsocket.go:24-26 | close closes the connection and changes nothing else |
| TcpSocket.TcpSocket.Send | tcpsocket.go:28-37 | a failed write deadline (net.ErrClosed once closed) is returned before writing; otherwise the write's error, with the count unchecked |
| TcpSocket.TcpSocket.Receive | tcpsocket.go:39-86 | the same frame and stream left as the RCON socket's receive |
| UdpSocket.SendResult | udpsocket.go:34-42 | no error iff the whole payload was written; a write error is returned as it is |
| UdpSocket.ReceivedPacket | udpsocket.go:45-60 | at most 1500 bytes; a deadline or read error is returned; otherwise the next datagram, cut to 1500 bytes |
| UdpSocket.Strip | udpsocket.go:67-70 | succeeds iff there are 4 bytes and no FE first byte, giving what follows the header; FE is a split-packet error, a short datagram panics |
| UdpSocket.Received | udpsocket.go:62-71 | a deadline or read error is returned as it is; a payload is the received datagram without its 4 header bytes, so at most 1496 bytes |
| UdpSocket.UdpSocket.constructor | udpsocket.go:23 | the socket holds its connection |
| UdpSocket.UdpSocket.Close | udpsocket.go:26-29 | close closes the connection and changes nothing else |
| UdpSocket.UdpSocket.Send | udpsocket.go:31-43 | net.ErrClosed once closed; otherwise the error is SendResult's and the outbox has what the write reported |
| UdpSocket.UdpSocket.ReceivePacket | udpsocket.go:45-60 | the result is ReceivedPacket's for the deadline result (net.ErrClosed once closed), and one datagram is consumed unless the deadline failed |
| UdpSocket.UdpSocket.Receive | udpsocket.go:62-71 | the result is receivePacket followed by Strip |
| UdpSocket.SendSuccessIsWhole | udpsocket.go:39-42 | a send without error put the whole payload on the wire |
| UdpSocket.SendShortIsError | udpsocket.go:39-41 | a datagram cut short is an error |
| UdpSocket.ReceivedBound | udpsocket.go:51-70 | what receive returns is the datagram without its first four bytes, at most 1496 bytes |
| UdpSocket.ReceivedPropagates | udpsocket.go:63-66 | receive passes receivePacket's errors on unchanged |
| UdpSocket.ReceivedOfDatagram | udpsocket.go:62-71 | round trip: a header with a non-FE first byte and a payload of up to 1496 bytes gives the payload back |
| Socket.ReceivedPacket | socket.go:46-57 | at most 1500 bytes whatever setting the deadline returned; a closed connection fails the read with net.ErrClosed |
| Socket.Received | socket.go:59-68 | a closed connection gives net.ErrClosed; read errors are returned as they are; a payload is the datagram without its 4 header bytes, at most 1496 bytes |
| Socket.Socket.constructor | socket.go:25 | the socket holds its connection |
| Socket.Socket.Close | socket.go:28-30 | close closes the connection and changes nothing else |
| Socket.Socket.Send | socket.go:32-44 | net.ErrClosed once closed; otherwise the write error or a short write |
| Socket.Socket.ReceivePacket | socket.go:46-57 | the result is ReceivedPacket's, and one datagram is consumed unless the connection is closed |
| Socket.Socket.Receive | socket.go:59-68 | the result is receivePacket followed by the split check and the header strip |
| Socket.ReceivedAgreesWithUdpSocket | socket.go:49 | both revisions agree when setting the deadline works, and both give net.ErrClosed once closed; when the deadline fails otherwise only the newer one returns that error |
| Socket.ReceivedOfPacket | socket.go:59-68 | an FE first byte is the split-packet error, and a datagram of 4 or more bytes loses exactly its header |
| A2sPlayerResponse.Blank | a2sPlayerResponse.go:31 | make gives n entries |
| A2sPlayerResponse.BlankIsZero | a2sPlayerResponse.go:31 | every entry make gives is the zero entry |
| A2sPlayerResponse.ReadEntry | a2sPlayerResponse.go:34-38 | an empty input breaks at once; a whole entry keeps its index and a wire-string name; a broken one keeps the fields set before the panic |
| A2sPlayerResponse.EntryIsPlayer | a2sPlayerResponse.go:35-38 | the entry reads match the current revision's: whole iff the current one succeeds, with the same player and error |
| A2sPlayerResponse.ReadEntries | a2sPlayerResponse.go:33-39 | at most count entries, and no stop iff all count were read |
| A2sPlayerResponse.Slots | a2sPlayerResponse.go:31-39 | the slice holds the whole entries in front, then the broken one, then zero entries |
| A2sPlayerResponse.Unmarshal | a2sPlayerResponse.go:22-42 | empty panics, a non-'D' header is its own error, one byte panics; otherwise playersCount entries, any failure a panic |
| A2sPlayerResponse.UnmarshalHeader | a2sPlayerResponse.go:26-31 | after the header the count byte sizes the slice and the entries follow |
| A2sPlayerResponse.A2SPlayersResponse.constructor | a2sPlayerResponse.go:17-20 | a new response has no players |
| A2sPlayerResponse.A2SPlayersResponse.UnMarshalBinary | a2sPlayerResponse.go:22-42 | a rejected reply leaves the receiver untouched; otherwise the count is set and a fresh array holds Unmarshal's entries |
| A2sPlayerResponse.ReadInto | a2sPlayerResponse.go:33-39 | the loop fills the array in place with the slots of the entries read, stopping at the first broken entry |
| A2sPlayerResponse.ReadNext | a2sPlayerResponse.go:34-38 | one pass of the loop puts the next entry, whole or broken, in its slot |
| A2sPlayerResponse.ReadEntryOfEncoding | a2sPlayerResponse.go:34-38 | an encoded entry reads back whole, index included |
| A2sPlayerResponse.ReadEntriesOfEncoding | a2sPlayerResponse.go:33-39 | count encoded entries read back whole, in order |
| A2sPlayerResponse.UnmarshalOfEncoding | a2sPlayerResponse.go:22-42 | round trip: a 'D' reply fills exactly count entries in wire order with their indexes |
| A2sPlayerResponse.ReadPlayersAgree | a2sPlayerResponse.go:33-39 | the current reader's list is the older entries without indexes, with the same error |
| A2sPlayerResponse.AgreesWithCurrent | a2sPlayerResponse.go:22-42 | on a 'D' reply both revisions read the same players and stop at the same place; the older panics with the current one's error |
| A2sPlayerResponse.FailsWhereCurrentFails | a2sPlayerResponse.go:26-30 | elsewhere both fail, the older with its own header error or a panic |
| ChallengeResponse.GetChallenge | challengeResponse.go:12-16 | succeeds iff there are 4 bytes, giving exactly the last four; a shorter reply panics |
| ChallengeResponse.GetChallengeIgnoresPrefix | challengeResponse.go:15 | bytes before the last four do not affect the challenge |
| ChallengeResponse.GetChallengeOfReply | challengeResponse.go:12-16 | for 'A' ++ LE32(x) the challenge is LE32(x) |
| ChallengeResponse.GetChallengeAgreesWithUnmarshal | challengeResponse.go:15 | on a five-byte challenge reply the bytes taken encode the challenge the current revision decodes |
| A2sPlayerRequest.PlayerRequestBytes | a2sPlayerRequest.go:13-22 | 9 bytes: FF FF FF FF, 'U', then the reply's last four bytes; a reply of under 4 bytes panics |
| A2sPlayerRequest.MarshalBinary | a2sPlayerRequest.go:13-22 | the buffer holds PlayerRequestBytes |
| A2sPlayerRequest.PlayerRequestOfReply | a2sPlayerRequest.go:16-18 | for 'A' ++ LE32(x) the request is byte for byte the current playersInfoRequest{x} |
| A2sPlayerRequest.PlayerRequestAgreesWithCurrent | a2sPlayerRequest.go:16-18 | on any five-byte challenge reply the request carries the challenge the current revision decodes |
| ChallengeRequest.MarshalBinary | challengeRequest.go:12-21 | exactly FF FF FF FF 'U' FF FF FF FF |
| ChallengeRequest.PrefixIsMinusOne | challengeRequest.go:15-17 | the request prefix is the little-endian int32 -1 |
| ChallengeRequest.ChallengeRequestIsMinusOneRequest | challengeRequest.go:12-21 | the older challenge request is the current playersInfoRequest{-1} |
| LegacyRconRequest.TypesAgree | rconRequest.go:9-14 | AUTH is 3, EXECCOMMAND and AUTH_RESPONSE are both 2, RESPONSE_VALUE is 0, as in the current revision |
| LegacyRconRequest.NewRequest | rconRequest.go:23-30 | type, body and id as given; size is len(body) + 10 when that fits an int32 |
| LegacyRconRequest.NewRequestAgreesWithCurrent | rconRequest.go:23-30 | both revisions build the same request |
| LegacyRconRequest.ConstructPacket | rconRequest.go:32-41 | LE size, LE id, LE type, body, two NULs: the same bytes as the current marshalBinary |
| LegacyRconRequest.PacketLength | rconRequest.go:25 | the size field counts exactly the bytes after it |
| LegacyRconAuthRequest.NewAuthRequest | rconauthrequest.go:23-30 | type SERVERDATA_AUTH, the password as body, size len(passwd) + 8 |
| LegacyRconAuthRequest.ConstructPacket | rconauthrequest.go:32-41 | the frame layout, len(passwd) + 14 bytes |
| LegacyRconAuthRequest.AuthPacketLength | rconauthrequest.go:25 | the size field is 2 less than the bytes after it |
| LegacyRconAuthRequest.AuthFrameAgainstCurrent | rconauthrequest.go:23-41 | against the current auth request only the size differs, by 2 |
| LegacyRconAuthRequest.CurrentDecoderTruncatesPassword | rconauthrequest.go:25 | the current decoder gives the password two bytes short, and fails for passwords under two bytes |
| LegacyRconResponse.ReadFrame | rconresponse.go:17-21 | a failure is io.EOF, io.ErrUnexpectedEOF or a negative length |
| LegacyRconResponse.NewRconResponse | rconresponse.go:16-26 | fewer than 12 bytes panic; at least 12 bytes with 0 <= size - 8 (int32 arithmetic) <= the bytes left succeed; a success has the header int32s and exactly size - 8 body bytes; every failure is a panic |
| LegacyRconResponse.DecodeOfFrame | rconresponse.go:21 | for a size of body + 8 + d the body comes back with d trailing NULs |
| LegacyRconResponse.DecodeOfRequestFrame | rconresponse.go:21 | on an rconRequest frame, size len + 10, the body comes back with both NULs |
| LegacyRconResponse.DecodeOfAuthFrame | rconresponse.go:21 | on an rconauthrequest frame, size len + 8, the body is exactly the password |
| LegacyRconResponse.CurrentBodyIsShorter | rconresponse.go:21 | where the older decoder succeeds with size 10 or more, the current one does too with the body two bytes shorter |
| ResponsePacket.NewResponsePacket | responsepacket.go:14-22 | every result is a panic |
| ResponsePacket.ReadPacket | responsepacket.go:14-22 | the reads never succeed; each failure is io.EOF or io.ErrUnexpectedEOF |
| ResponsePacket.NeverSucceeds | responsepacket.go:19 | no input decodes: io.EOF when the reads stop on a 4-byte boundary within 12 bytes, io.ErrUnexpectedEOF otherwise |
| ResponsePacket.RejectsEveryFrame | responsepacket.go:14-22 | not even an RCON frame decodes |

## Left out

- The network itself is not modelled: dialling (`net.Dial`, `DialFn`, `net.DialTimeout`, `ResolveUDPAddr`, `ListenUDP`) and the `newRCONSocket`, `newTCPSocket`, `newUDPSocket` and `newSocket` constructors. Dial outcomes are parameters of `Connect`, `Init` and `InitRcon`, and the sockets wrap scripted connections.
- Deadlines: the time values passed to `SetReadDeadline` and `SetWriteDeadline` are not modelled. Only their error results are kept: a scripted constant of each connection, or net.ErrClosed once it is closed.
- A dial returns an open connection: `Init`, `InitRcon` and `Connect` take the dialled transport as a parameter and require it not to be closed.
- Server's connect options (`WithDialFn`, `WithRCONPassword`) are left out; the password is a direct parameter.
- The `Server` mutex is left out, because there is no concurrency in the model.
- `Ping` is left out, because it measures wall-clock time.
- Logging is left out: glog, logrus, `SetLog` and `init`.
- The `String()` methods and the enum string maps are left out (formatting only).
- `Stats` and `unmarshalStatsRCONResponse` are left out, because they parse free text into floats.
- Floats (`readFloat`, `Player.Duration`) are kept as raw uint32 bit patterns. No float conversion is modelled.
- Wire.ToInt: the `string` case (`strconv.Atoi`) is not modelled, since no caller passes a string. A value of any other type fails with errBadData.
- `rand.Int31` ids are parameters. Collisions between the exec id and the mirror id are excluded by the lemmas that need distinct ids.
- Every read script is finite. So a stream that keeps returning non-EOF errors forever is not modelled, and nor is the non-termination of the TCP receive loop on such a stream.
- Net.ReadChunk: a Read never returns bytes together with an error. A Go Read may, but the chunk scripts deliver one or the other.
- Comm.UnmarshalInfo: on failure the receiver's partly assigned fields are not returned. `Info` discards the receiver on error in any case.
- Socket.ReceivedPacket: the sender address that `ReadFromUDP` returns is dropped, as the source drops it.
- `AS2PlayerRequest.go` is not part of this model. It lies outside the modelled core: it duplicates `a2sPlayerRequest.go` through a `ChallengeResponse` method, `GetChallangeNumber`, that none of the files this model draws on defines and whose meaning no other file fixes.
- The command-line tool and the samples are not part of this model.
- `must` (util.go) and the defer/recover blocks are not modelled as control flow. A panic that `unmarshalBinary` recovers becomes the `Err` it returns, as `ReadKinds` shows for the enum decoders.
