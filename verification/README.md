# Ran Online message transport: a verified model

This project models the binary message transport of `ranserver-linux` and the codecs that travel on it, and
proves what they promise. There are four linked parts.

* **Transport.** Frames (`Packet`, `Framer`), batching and the NET_COMPRESS envelope (`SendBuffer`, `Batching`),
  the write pump of a session (`Pump`, `Session`), the double-buffered receive queue (`MsgQueue`) and the whole
  path from `Send` to dispatch, among other sessions (`Pipeline`). The central theorems are
  `Pipeline.EndToEndDelivery`, `Pipeline.DeliveryIsInevitable`, `Packet.ChunkingInvariance` and
  `Batching.BatchConservation`.
* **Certificate cipher.** RC5-32/16 with its key schedule (`Rc5`), CBC, PKCS#7 and hexadecimal (`AuthCrypto`), and
  the comma-separated certification exchange inside it (`Certificate`). Both round trips are proved for all inputs;
  `Rfc2040` states schedule and rounds as RFC 2040 does, with its own numbers, and `KnownAnswers` works the fixed key
  through to the cipher text of the empty string.
* **Lobby record.** The MessagePack encoder (`MsgPack`) against a decoder written from the int, str, array and bool
  families of the MessagePack specification, and the nested character record (`CharLobby`).
* **Login table.** The per-client login and PIN state of the agent server (`LoginTable`), in every interleaving of
  the update tick with connections that open and close.

`Bytes` holds words and sequences of sequences, `Arith` two facts about division, `Lzo` the compression wrapper.

Code that updates objects in place is a class whose methods are proved against a function of the old state; the
lemmas are about those functions and about runs of the state machines built from them. The LZO library is a pair of
function values, and the predicate `Lzo.Lawful` is all that is assumed of it: output of a bounded, non-zero size, and
decompression into enough room undoes compression.

What a format or a table is supposed to be is stated with literal numbers and positions, apart from the functions that
the methods are proved against: frames (`Packet.RawStreamDelivery`, `AcceptedExactly`), envelopes
(`SendBuffer.EnvelopeBytes`), thresholds (`Batching.SendCases`), the cipher (`Rfc2040`), the certification answer
(`Certificate.AnswerMembers`), MessagePack forms (`MsgPack.UIntForms`, `NegativeForms`, `LengthForms`), the lobby
record (`CharLobby.LobbyMembers`, `ServerReplyColumns`) and the login entry (`LoginTable.EntryIsAccount`).

Some properties one would expect are false of the code. For each, one lemma gives a run or an input, and another
states exactly when the property holds:

* `pop_front` in the completion handler can meet an empty queue (`Pump.PopOnEmptyHappens`): exactly when `Close` has
  cleared the queue and nothing was enqueued since (`Pump.PopOnEmptyExactly`). Everything else about the pump is
  stated until the queue is cleared, or for the whole run where it survives the clearing.
* The close handler can be called twice (`Pump.SecondNoticeHappens`), although `session.h:22` says once: exactly when
  a call of `Close` finds `m_closed` unset while another has tested but not yet set it (`Pump.SecondNoticeExactly`).
* A login entry can outlive its client (`LoginTable.StaleHappens`): exactly when the login took effect after the
  close (`LoginTable.StaleExactly`), because the entry of a successful login is stored without asking whether the
  client is still connected (`LoginTable.StepKeepsConnectedExactly`).
* A certificate reply can be unreadable (`Certificate.ReplyCanFail`): it is readable exactly up to 247 bytes of text
  without a comma in the new key (`Certificate.ReplyFidelity`).
* A lobby reply can be refused by `Send` (`CharLobby.LongNameIsRefused`). For the records the server builds from a row
  of the database, with empty items and no club name, replies always get through exactly up to names of 1760 bytes
  (`CharLobby.ServerRepliesFitExactly`); for arbitrary records of twenty items exactly up to 1384 bytes of names
  (`CharLobby.AllFitExactly`). The column buffer of the database layer holds 4095 bytes (`odbc_db.cpp:123`).
* A lobby record with a name of 2^32 bytes is not read back (`CharLobby.LongNameIsLost`): records are decodable exactly
  below 2^32 items and bytes per name (`CharLobby.LobbyRoundTrip`).

Two choices where the source leaves something open: a rotation by 0 shifts by 32, which C++ leaves undefined
(`auth_crypto.cpp:18`, `auth_crypto.cpp:23`), and the model takes the identity that processors and RFC 2040 give; a
`pop_front` on an empty queue, also undefined, puts the model into a fault state in which no step is enabled.
Bytes are numbers in the transport, which computes sizes from them, and bit vectors in the cipher, which rotates them;
nothing is passed from one to the other.

Where comments or documents and code disagree, the model follows the code: the framer accepts frames up to 4108 bytes
(`docs/runbooks/net-packet-layer.md:41` says 2048), `Feed` fails on malformed envelopes and not only on bad sizes
(`packet.h:67-68`), and setting a new PIN, result 2, does not clear the pending flag (`agent_server.cpp:408-415`).

## Model

| member | source | states |
|---|---|---|
| Bytes.ReadWrittenWord | ranserver-linux/net/packet.h:34-45 | ReadLE32 recovers the word WriteLE32 wrote, at any offset and between any other bytes |
| Bytes.WriteReadWord | ranserver-linux/net/packet.h:34-45 | the four bytes read as a word are the bytes that word is written as |
| Bytes.WriteLE32 | ranserver-linux/net/packet.h:40-45 | the four bytes at the offset become the little-endian word; every other byte of the buffer is unchanged |
| Lzo.DecompressUndoesCompress | ranserver-linux/net/minlzo.cpp:83-93 | a result accepted by the strict "shorter" test is non-empty and passes the "at least as long" test when decompressed into enough room, giving back the input |
| Lzo.ContractHasModel | ranserver-linux/net/minlzo.cpp:60-134 | the contract assumed of the LZO library is satisfiable, with inputs that compress and inputs that do not |
| Lzo.MinLzo.Compress | ranserver-linux/net/minlzo.cpp:60-100 | result code and output bytes for every input; the output buffer changes only where the library writes |
| Lzo.MinLzo.Decompress | ranserver-linux/net/minlzo.cpp:102-134 | result code and output bytes for every input, never beyond the buffer |
| Packet.EncodedMessageIsFrame | ranserver-linux/net/packet.cpp:8-17 | an encoded message carries its own total length, its type and its payload |
| Packet.FrameIsEncodedMessage | ranserver-linux/net/packet.cpp:8-17 | every frame is the encoding of its own type and payload, so encoding is onto the frames |
| Packet.FirstFrame | ranserver-linux/net/packet.cpp:22-105 | an accepted frame has 8 to 4108 bytes and lies inside the buffer; an incomplete one is shorter than 4108 |
| Packet.FirstFrameIsStable | ranserver-linux/net/packet.cpp:22-32 | bytes that arrive later never change what is already complete or malformed at the front |
| Packet.BatchOfFrames | ranserver-linux/net/packet.cpp:77-94 | a batch of frames is cut into exactly those frames in order, and a tail of fewer than 8 bytes is dropped without an error |
| Packet.ParseInPieces | ranserver-linux/net/packet.cpp:19-109 | chunking invariance for two pieces: parsing a then b from the leftover gives the outcome of parsing a ++ b, and if a fails, a ++ b fails with the same messages |
| Packet.ChunkingInvariance | ranserver-linux/net/packet.cpp:19-109 | feeding any number of chunks, from any state a successful Feed can leave, equals parsing their concatenation: same messages, same success, same leftover |
| Packet.ParseIsGreedy | ranserver-linux/net/packet.cpp:22-32 | after a successful parse no complete frame is left, the leftover is shorter than 4108 bytes, and parsing it again yields nothing |
| Packet.FramesAreFound | ranserver-linux/net/packet.cpp:22-107 | any stream of acceptable frames followed by an incomplete one is parsed to exactly their messages and that leftover |
| Packet.ParseOutcome | ranserver-linux/net/packet.cpp:22-107 | every input is acceptable frames followed by a stopping point; parsing succeeds if and only if that point is an incomplete frame, and both outcomes are determined by the frames and the point |
| Packet.PrefixParses | ranserver-linux/net/packet.cpp:19-109 | a good stream cut short anywhere still parses, to a prefix of its messages |
| Packet.RawStreamDelivery | ranserver-linux/net/packet.cpp:19-109 | frames of at most 4108 bytes that are no envelopes, in any chunks, are delivered one message a frame with all its bytes and its type; an incomplete tail is left |
| Packet.EnvelopeDelivery | ranserver-linux/net/packet.cpp:34-95 | an accepted envelope delivers the frames inside it, whole and in order, compressed or not |
| Packet.AcceptedExactly | ranserver-linux/net/packet.cpp:22-95 | a frame is accepted if and only if it has at most 4108 bytes and, as an envelope, at least 12 and a body that is frames and a tail of fewer than 8 bytes, decompressed into 32768 bytes if byte 8 is 1 |
| Packet.CutIsPartition | ranserver-linux/net/packet.cpp:58-94 | the bytes of the messages cut from a batch are the batch up to the place where cutting stops, and it stops without an error if and only if fewer than 8 bytes are left |
| Packet.NineBytes | ranserver-linux/net/packet.cpp:8-109 | the nine bytes of a message of type 5 with payload 7, and the one message delivered for them |
| Framer.EncodeMessage | ranserver-linux/net/packet.cpp:8-17 | the buffer filled in place is the frame of the type and payload |
| Framer.MessageFramer.Feed | ranserver-linux/net/packet.cpp:19-109 | the loop over the accumulation buffer delivers, accepts and leaves over exactly what parsing old buffer ++ data says; after an error the buffer is untrimmed |
| Framer.MessageFramer.TakeFrame | ranserver-linux/net/packet.cpp:34-102 | the part of the loop for one complete frame delivers that frame's message or its envelope's messages, or reports it malformed |
| Framer.MessageFramer.UnwrapInto | ranserver-linux/net/packet.cpp:34-95 | the envelope branch of Feed delivers exactly the envelope's messages, compressed or not |
| Framer.MessageFramer.CutDecompressed | ranserver-linux/net/packet.cpp:58-74 | the loop over the decompressed bytes delivers the messages of the batch and stops at the first bad size |
| Framer.MessageFramer.CutRaw | ranserver-linux/net/packet.cpp:76-94 | the loop over the raw envelope body delivers the messages of the batch and stops at the first bad size |
| SendBuffer.EnvelopeShape | ranserver-linux/net/send_msg_buffer.cpp:72-108 | the envelope of any batch in the send buffer has 13 to 2060 bytes, its size field is its length, and the receiver's size check accepts it |
| SendBuffer.EnvelopeBytes | ranserver-linux/net/send_msg_buffer.cpp:72-104 | the bytes of every envelope, head included; it is compressed if and only if the library succeeds with a strictly shorter result |
| SendBuffer.HeldBackExactly | ranserver-linux/net/send_msg_buffer.cpp:31-63 | a frame is held back if and only if batch and frame stay below 1000 bytes, and refused if and only if it is over 2048 |
| SendBuffer.WorstCaseFits | ranserver-linux/net/send_msg_buffer.cpp:72-84 | whatever the library writes in the worst case fits behind the head in the 4096-byte buffer |
| SendBuffer.CompressionIsTransparent | ranserver-linux/net/send_msg_buffer.cpp:80-104 | the receiver cuts the envelope of any batch as it would cut the batch itself, whether it was compressed or not |
| SendBuffer.EnvelopeCarriesFrames | ranserver-linux/net/send_msg_buffer.cpp:80-104 | the envelope of a batch of frames is accepted on the wire and stands for exactly those frames |
| SendBuffer.SendMsgBuffer.AddMsg | ranserver-linux/net/send_msg_buffer.cpp:31-63 | the result code and the whole new batch, in all four cases |
| SendBuffer.SendMsgBuffer.GetSendSize | ranserver-linux/net/send_msg_buffer.cpp:65-109 | an empty batch gives 0 and changes nothing; otherwise the send buffer holds the batch's envelope of the returned size and the batch is emptied |
| SendBuffer.SendMsgBuffer.BuildEnvelope | ranserver-linux/net/send_msg_buffer.cpp:72-104 | the bytes left in the send buffer are the envelope of the pending batch, on both branches |
| SendBuffer.SendMsgBuffer.Reset | ranserver-linux/net/send_msg_buffer.cpp:24-29 | the batch is emptied |
| Batching.CountDoesNotWrap | ranserver-linux/net/send_msg_buffer.cpp:42-46 | the message count is the number of pending frames, at most an eighth of the pending bytes, so the 16-bit counter never wraps |
| Batching.FlushConserves | ranserver-linux/net/session.cpp:75-84 | Flush hands everything waiting over as one packet and accepts or loses nothing |
| Batching.SendConserves | ranserver-linux/net/session.cpp:41-73 | Send appends exactly the given frame to the accepted ones or refuses it for being over 2048 bytes, also on the path with the ignored second result; batches stay below 1000 bytes or are one frame |
| Batching.SendCases | ranserver-linux/net/session.cpp:41-73 | what is refused, held back, sent alone or sent behind the pending batch, in bytes, with the thresholds 1000 and 2048 |
| Batching.BatchConservation | ranserver-linux/net/session.cpp:41-84 | over every run of Send and Flush the batches handed over followed by the waiting frames are the accepted frames in order; each packet is the envelope of whole frames |
| Batching.PacketShapes | ranserver-linux/net/send_msg_buffer.cpp:72-108 | every packet of every run is a frame of 13 to 2060 bytes |
| Batching.PacketsCarryBatches | ranserver-linux/net/send_msg_buffer.cpp:65-109 | the stream of packets is acceptable frame by frame and stands for the concatenated batches |
| Batching.StreamDelivery | ranserver-linux/net/session.cpp:41-84 | for every run and every chunking, even if the stream breaks off, all reads succeed and message i has all bytes of the i-th accepted frame and the type in it; all of them if the run ends with Flush and all bytes arrive |
| Pump.StepKeepsInv | ranserver-linux/net/session.cpp:86-141 | every lock section, access to m_closed and socket event keeps the pump's invariant |
| Pump.PumpSafety | ranserver-linux/net/session.cpp:86-126 | in every interleaving, until Close clears the queue: at most one write outstanding, of the front packet; a non-empty queue is marked in progress; completed ++ queued is what was enqueued |
| Pump.NoLostWakeUp | ranserver-linux/net/session.cpp:86-110 | while open, a non-empty queue has exactly one thread driving it and that thread can move |
| Pump.WireIsPrefix | ranserver-linux/net/session.cpp:101-141 | in every run, also after Close, the bytes on the wire are a prefix of the enqueued packets in order, never two mixed, and the completed packets are a prefix of the enqueued ones |
| Pump.PopOnEmptyExactly | ranserver-linux/net/session.cpp:120-124 | the unguarded pop_front meets an empty queue if and only if Close has cleared the queue and nothing was enqueued since |
| Pump.PopOnEmptyHappens | ranserver-linux/net/session.cpp:115-138 | a concrete run in which that happens: completion queued, Close clears, handler runs |
| Pump.SecondNoticeExactly | ranserver-linux/net/session.cpp:128-141 | a call of Close becomes one of several that call the close handler if and only if there were several before, or it finds m_closed unset while another stands between its test and its setting |
| Pump.SecondNoticeHappens | ranserver-linux/net/session.cpp:128-141 | a concrete run in which the close handler is called twice |
| Pump.PumpDrains | ranserver-linux/net/session.cpp:101-126 | from every open state without a failed write, the pump alone can put everything enqueued on the wire |
| Session.CallsAreRuns | ranserver-linux/net/session.cpp:86-141 | uninterrupted calls of enqueueWrite and Close are runs of the pump |
| Session.Session.EnqueueWrite | ranserver-linux/net/session.cpp:86-99 | the new state is that of the two lock sections |
| Session.Session.DoWrite | ranserver-linux/net/session.cpp:101-114 | the new state is that of the lock section and the write it starts |
| Session.Session.OnWritten | ranserver-linux/net/session.cpp:115-125 | after success the front is popped and the next write started, with the fault state for an empty queue; after an error the session is closed |
| Session.Session.Close | ranserver-linux/net/session.cpp:128-141 | the queue is cleared and the close handler called, in that order and once; a call on a closed session changes nothing |
| Session.Session.Send | ranserver-linux/net/session.cpp:41-73 | batch, packets enqueued and closing, in all four cases of addMsg |
| Session.Session.Flush | ranserver-linux/net/session.cpp:75-84 | the pending batch is enqueued as one packet, if there is one |
| Session.Session.OnRead | ranserver-linux/net/session.cpp:20-39 | messages of a good read enter the receive queue stamped and in order; an error or malformed stream closes the session and delivers nothing of that read |
| Session.Session.Deliver | ranserver-linux/net/session.cpp:33-36 | the loop inserts every message of a read, stamped with the client, in order |
| MsgQueue.MsgManager.MsgQueueInsert | ranserver-linux/net/msg_manager.h:27-30 | the message is appended to the front queue and nothing else changes |
| MsgQueue.MsgManager.MsgQueueFlip | ranserver-linux/net/msg_manager.h:33-39 | the moving loop appends the whole front queue to the back queue |
| MsgQueue.MsgManager.GetMsg | ranserver-linux/net/msg_manager.h:42-48 | the first message of the back queue is removed and returned, or drained is reported |
| MsgQueue.Dispatcher.OnUpdate | ranserver-linux/servers/agentserver/agent_server.cpp:70-74 | a tick dispatches back ++ front in order and leaves both queues empty |
| MsgQueue.ExactlyOnceInOrder | ranserver-linux/net/msg_manager.h:27-48 | in every interleaving of insert, flip and get, got ++ back ++ front is the insert sequence, also across flips of an undrained queue |
| MsgQueue.DrainIsExact | ranserver-linux/servers/agentserver/agent_server.cpp:72-74 | without a flip, gets return exactly the messages that were in the back queue, whatever is inserted meanwhile; the loop ends after exactly that many |
| Pipeline.StepKeepsInv | ranserver-linux/net/session.cpp:20-141 | every step of sender, socket, reader, receive queue and dispatcher keeps the end-to-end invariant |
| Pipeline.EndToEndDelivery | ranserver-linux/net/session.cpp:20-141 | in every run of the whole path, with either side closing at any moment and any other sessions filling the same receive queue, no read fails, and message i dispatched for this client has all bytes of the i-th frame of at most 2048 bytes given to Send, the type in it, and the client's number; all of them when nothing is under way |
| Pipeline.PayloadDelivery | ranserver-linux/net/session.cpp:20-141 | a payload sent with EncodeMessage is dispatched with its type and stands behind the 8 bytes of the header |
| Pipeline.AcceptedAreSent | ranserver-linux/net/session.cpp:41-73 | the accepted frames of any run are those given to Send without those over 2048 bytes |
| Pipeline.MeasureFalls | ranserver-linux/net/session.cpp:20-141 | while both sides are open, every step that moves something on, of any of the threads, keeps them so and lowers one natural number |
| Pipeline.DeliveryIsInevitable | ranserver-linux/net/session.cpp:20-141 | from every reachable state with both sides open and no failed write, such steps can be taken only boundedly often, in whatever order; when none is left, everything accepted has been dispatched |
| Pipeline.DeliveryCanComplete | ranserver-linux/net/session.cpp:20-141 | and some sequence of such steps does dispatch everything, so the path never gets stuck |
| Rc5.RotationsInverse | ranserver-linux/servers/authserver/auth_crypto.cpp:16-24 | the two data-dependent rotations undo each other for every word and shift |
| Rc5.RotateByZero | ranserver-linux/servers/authserver/auth_crypto.cpp:16-24 | rotation by a multiple of 32 is the identity |
| Rc5.UnroundsUndoRounds | ranserver-linux/servers/authserver/auth_crypto.cpp:49-79 | any number of decryption rounds undoes as many encryption rounds, for every table |
| Rc5.BlockInverse | ranserver-linux/servers/authserver/auth_crypto.cpp:49-79 | for every 34-word table block decryption and encryption are inverse permutations of the 8-byte blocks |
| Rc5.EncryptBlock | ranserver-linux/servers/authserver/auth_crypto.cpp:49-63 | the loop updating a and b computes the block function |
| Rc5.DecryptBlock | ranserver-linux/servers/authserver/auth_crypto.cpp:65-79 | the downward loop computes the inverse block function |
| Rc5.KeyExpand | ranserver-linux/servers/authserver/auth_crypto.cpp:26-47 | for every key length the in-place loop with two wrapping counters computes the expanded key, which Rfc2040.ExpandedIsSchedule characterises |
| Rc5.KeyTableOf | ranserver-linux/servers/authserver/auth_crypto.cpp:33-37 | joining the key octet by octet gives the little-endian, zero-padded words of the key |
| Rc5.FillTable | ranserver-linux/servers/authserver/auth_crypto.cpp:27-31 | the table before mixing |
| Rc5.MixEntries | ranserver-linux/servers/authserver/auth_crypto.cpp:42-43 | one mixing step changes one entry of each table and the two registers |
| Rfc2040.ExpandedIsSchedule | ranserver-linux/servers/authserver/auth_crypto.cpp:26-47 | the expanded key of every key satisfies the recurrence of RFC 2040 section 4 over the values of A and B, with the two magic words, rotation by 3 and three passes over the longer table; entry i is the last A stored there |
| Rfc2040.ScheduleIsUnique | ranserver-linux/servers/authserver/auth_crypto.cpp:26-47 | only one table satisfies it, so the recurrence defines the expansion |
| Rfc2040.EncryptedIsReference | ranserver-linux/servers/authserver/auth_crypto.cpp:49-63 | block encryption is sixteen rounds of shifts, exclusive or and addition on the block's little-endian words, for every table of 34 words |
| KnownAnswers.TableOfKey | ranserver-linux/servers/authserver/auth_crypto.cpp:26-47 | the 34 words of the expanded key of the program |
| KnownAnswers.EncryptedNines | ranserver-linux/servers/authserver/auth_crypto.cpp:49-63 | one block encrypted under that key |
| KnownAnswers.EncryptedNothing | ranserver-linux/servers/authserver/auth_crypto.cpp:142-169 | the cipher text of the empty string is 967a727f8ffdd0df |
| AuthCrypto.DecodeHexEncoded | ranserver-linux/servers/authserver/auth_crypto.cpp:81-99 | hexadecimal decoding undoes encoding |
| AuthCrypto.EncodeHexDecoded | ranserver-linux/servers/authserver/auth_crypto.cpp:81-99 | a text is restored by encoding what it decodes to if and only if it is lowercase hexadecimal of even length |
| AuthCrypto.HexEncode | ranserver-linux/servers/authserver/auth_crypto.cpp:81-87 | the loop computes the encoding |
| AuthCrypto.HexDecode | ranserver-linux/servers/authserver/auth_crypto.cpp:89-99 | the loop computes the decoding on every text, with strtol's treatment of signs, spaces and other characters; odd lengths give nothing |
| AuthCrypto.StrtolAnswers | ranserver-linux/servers/authserver/auth_crypto.cpp:89-99 | uppercase digits, signs, spaces and other characters in a pair, as strtol reads them |
| AuthCrypto.CbcInverse | ranserver-linux/servers/authserver/auth_crypto.cpp:118-129 | chained decryption undoes chained encryption for every table and initial vector |
| AuthCrypto.CbcInverseBack | ranserver-linux/servers/authserver/auth_crypto.cpp:156-167 | chained encryption undoes chained decryption for every table and initial vector |
| AuthCrypto.CbcBlocks | ranserver-linux/servers/authserver/auth_crypto.cpp:156-167 | every cipher block is the encryption of its text block xored with the cipher block before it |
| AuthCrypto.UnpadPadded | ranserver-linux/servers/authserver/auth_crypto.cpp:131-138 | removing the padding undoes padding |
| AuthCrypto.PadUnpadded | ranserver-linux/servers/authserver/auth_crypto.cpp:151-154 | whatever passes the padding check is the padding of what it is reduced to |
| AuthCrypto.PaddedOctet | ranserver-linux/servers/authserver/auth_crypto.cpp:150-154 | the octets of a padded text: the text, then as many octets as the block lacks, each holding that number |
| AuthCrypto.DecryptEncrypted | ranserver-linux/servers/authserver/auth_crypto.cpp:102-169 | DecryptAuthData(EncryptAuthData(p)) is p for every byte string p |
| AuthCrypto.EncryptDecrypted | ranserver-linux/servers/authserver/auth_crypto.cpp:102-169 | a text is the encryption of something if and only if it is lowercase hexadecimal and opens; then encrypting its decryption gives it back |
| AuthCrypto.CipherTextBlocks | ranserver-linux/servers/authserver/auth_crypto.cpp:142-169 | the cipher text of any text block by block, with padding, chaining and the first vector of ones |
| AuthCrypto.OpensByOctets | ranserver-linux/servers/authserver/auth_crypto.cpp:102-140 | how a text opens depends only on the octets it spells; texts of odd length never open |
| AuthCrypto.EncryptedLength | ranserver-linux/servers/authserver/auth_crypto.cpp:151-168 | the cipher text of n bytes has exactly 16*(n/8 + 1) lowercase hexadecimal characters |
| AuthCrypto.EncryptionIsInjective | ranserver-linux/servers/authserver/auth_crypto.cpp:142-169 | different texts have different cipher texts |
| AuthCrypto.EncryptAuthData | ranserver-linux/servers/authserver/auth_crypto.cpp:142-169 | the method computes the padded, chained, hexadecimal encryption |
| AuthCrypto.DecryptAuthData | ranserver-linux/servers/authserver/auth_crypto.cpp:102-140 | the method computes the decryption, and the empty text on every failure |
| AuthCrypto.CbcEncrypt | ranserver-linux/servers/authserver/auth_crypto.cpp:156-167 | the block loop of encryption |
| AuthCrypto.CbcDecrypt | ranserver-linux/servers/authserver/auth_crypto.cpp:118-129 | the block loop of decryption |
| AuthCrypto.Unpad | ranserver-linux/servers/authserver/auth_crypto.cpp:131-139 | the checking loop removes a padding and rejects anything else |
| Certificate.JoinOfSplit | ranserver-linux/servers/authserver/auth_server.cpp:15-21 | splitting loses nothing and leaves no separator in a field |
| Certificate.SplitOfJoin | ranserver-linux/servers/authserver/auth_server.cpp:15-21 | joined fields are recovered if and only if none contains the separator |
| Certificate.SplitFields | ranserver-linux/servers/authserver/auth_server.cpp:15-21 | the loop over the characters computes the splitting |
| Certificate.AtoiOfToString | ranserver-linux/servers/authserver/auth_server.cpp:139-143 | every 32-bit number survives to_string and atoi |
| Certificate.DecimalAnswer | ranserver-linux/servers/authserver/auth_server.cpp:139-143 | a negative number as text and back |
| Certificate.AtoiAnswers | ranserver-linux/servers/authserver/auth_server.cpp:139-143 | spaces and sign in front are skipped and reading stops at the first other character |
| Certificate.FieldFidelity | ranserver-linux/servers/authserver/auth_server.cpp:173-174 | a text survives encryption into the 501-byte field if and only if it has at most 247 bytes; every longer one comes out empty |
| Certificate.ReplyFidelity | ranserver-linux/servers/authserver/auth_server.cpp:152-174 | the reply decrypts and splits into the six fields assembled if and only if their text has at most 247 bytes and neither address nor new key has a comma |
| Certificate.ReplyCanFail | ranserver-linux/servers/authserver/auth_server.cpp:117-181 | a request that is parsed and answered, but whose reply cannot be read because the new key has a comma or 248 bytes |
| Certificate.RequestIsParsed | ranserver-linux/servers/authserver/auth_server.cpp:132-145 | a request is parsed back exactly if and only if neither address nor key has a comma |
| Certificate.ParsedAddress | ranserver-linux/servers/authserver/auth_server.cpp:132-145 | the address of a parsed request never has a comma |
| Certificate.CertificateExchange | ranserver-linux/servers/authserver/auth_server.cpp:117-181 | request, answer and reading of the answer end to end, with the exact conditions |
| Certificate.AnswerMembers | ranserver-linux/servers/authserver/auth_server.cpp:123-174 | for every decrypted text of five fields and anything behind them, each member of the answer: country, type and port, the address cut to 20, the session server for type 2 only, and the six texts in order if they have at most 247 bytes, otherwise nothing |
| Certificate.AnsweredExactly | ranserver-linux/servers/authserver/auth_server.cpp:123-137 | a request is answered if and only if its text decrypts to something with at least four commas |
| Certificate.HandleRequest | ranserver-linux/servers/authserver/auth_server.cpp:123-174 | the handler answers or stays silent exactly as specified |
| Certificate.StrNCpy | ranserver-linux/servers/authserver/auth_server.cpp:156-174 | the copying loop fills the zeroed array with the text up to its first NUL, cut to the size |
| MsgPack.HeadIsRead | ranserver-linux/net/msgpack_min.cpp:10-65 | every number, string length, array count and bool is read back from the form the encoder chooses, at every width boundary and for two's-complement negatives |
| MsgPack.EncodingIsShortest | ranserver-linux/net/msgpack_min.cpp:10-65 | no legal form of the same head is shorter than the encoder's, and only expressible heads can be decoded |
| MsgPack.UIntForms | ranserver-linux/net/msgpack_min.cpp:20-32 | the bytes of every non-negative number, form by form |
| MsgPack.NegativeForms | ranserver-linux/net/msgpack_min.cpp:34-47 | the bytes of every negative number, form by form |
| MsgPack.LengthForms | ranserver-linux/net/msgpack_min.cpp:10-65 | the bytes of every string head, array head and bool |
| MsgPack.ByteOfBE | ranserver-linux/net/msgpack_min.cpp:5-8 | each byte of a number written most significant first |
| MsgPack.RoundTripExactly | ranserver-linux/net/msgpack_min.cpp:10-65 | a value followed by anything decodes to itself and that rest if and only if it is well formed |
| MsgPack.PrefixFree | ranserver-linux/net/msgpack_min.cpp:10-65 | no value's encoding is a prefix of another's |
| MsgPack.StreamIsRead | ranserver-linux/net/msgpack_min.cpp:10-65 | decoding any concatenation of encoded values recovers the exact sequence, without being told its length |
| MsgPack.TokensAreRead | ranserver-linux/net/msgpack_min.cpp:10-65 | any concatenation of single outputs of the packer, array heads without their elements included, is decoded to the exact sequence if and only if each output is expressible |
| MsgPack.TokenPrefixFree | ranserver-linux/net/msgpack_min.cpp:10-65 | no single output is a prefix of another |
| MsgPack.ValueIsTokens | ranserver-linux/net/msgpack_min.cpp:10-65 | a nested value is its outputs one after the other |
| MsgPack.ReencodingIsShortest | ranserver-linux/net/msgpack_min.cpp:10-65 | re-encoding any decodable value never needs more bytes than were read |
| MsgPack.Packer.Be | ranserver-linux/net/msgpack_min.cpp:5-8 | the shifting loop appends the low bytes, most significant first |
| MsgPack.Packer.Array | ranserver-linux/net/msgpack_min.cpp:10-18 | appends the head of an array |
| MsgPack.Packer.UInt | ranserver-linux/net/msgpack_min.cpp:20-32 | appends the encoding of an unsigned number |
| MsgPack.Packer.Int | ranserver-linux/net/msgpack_min.cpp:34-47 | appends the encoding of a signed number |
| MsgPack.Packer.Str | ranserver-linux/net/msgpack_min.cpp:49-61 | appends head and characters of a string |
| MsgPack.Packer.Bool | ranserver-linux/net/msgpack_min.cpp:63-65 | appends the encoding of a bool |
| CharLobby.PackLobbyCharInfoAc | ranserver-linux/servers/agentserver/char_lobby.h:129-132 | the packed bytes are the record's value, an array of one array of twenty members |
| CharLobby.PackInfo | ranserver-linux/servers/agentserver/char_lobby.h:102-125 | the twenty members are appended in order, nested structs and items included |
| CharLobby.PackItems | ranserver-linux/servers/agentserver/char_lobby.h:117-118 | the loop over the equipped items appends their array |
| CharLobby.PackItem | ranserver-linux/servers/agentserver/char_lobby.h:62-70 | an item is appended as the array of its six members |
| CharLobby.PackStats | ranserver-linux/servers/agentserver/char_lobby.h:41-45 | the stats are appended as the array of six numbers |
| CharLobby.LobbyRoundTrip | ranserver-linux/servers/agentserver/char_lobby.h:102-132 | a client decodes exactly the packed record and stops exactly behind it, if and only if item list and names are shorter than 2^32 |
| CharLobby.LobbyMembers | ranserver-linux/servers/agentserver/char_lobby.h:41-132 | what a client finds in any packed record, member by member, items and stats included |
| CharLobby.LongNameIsLost | ranserver-linux/servers/agentserver/char_lobby.h:102-132 | no record with a name of 2^32 bytes is read back |
| CharLobby.LobbyInjective | ranserver-linux/servers/agentserver/char_lobby.h:102-132 | records with equal bytes are equal |
| CharLobby.LobbySize | ranserver-linux/servers/agentserver/char_lobby.h:102-132 | a twenty-slot record takes at most 648 bytes besides its names, and the widest record takes them all |
| CharLobby.ReplyIsRead | ranserver-linux/servers/agentserver/agent_server.cpp:334-354 | the reply's size field equals the length of its packed record, from which the record is read back |
| CharLobby.ReplyFits | ranserver-linux/servers/agentserver/agent_server.cpp:339-354 | with names of at most 1384 bytes in all, the framed reply is at most 2048 bytes and Send never refuses it |
| CharLobby.ReplyRefused | ranserver-linux/servers/agentserver/agent_server.cpp:339-354 | Send refuses a reply if and only if its packed record is over 2032 bytes |
| CharLobby.AllFitExactly | ranserver-linux/servers/agentserver/char_lobby.h:102-132 | for arbitrary records of twenty items 1384 bytes of names are exact: any larger allowance admits one whose reply is refused |
| CharLobby.ServerReplyColumns | ranserver-linux/servers/agentserver/agent_server.cpp:339-354 | what a client decodes from the reply to a database row, column by column with the casts, in a frame of type 298 |
| CharLobby.ServerRecordSize | ranserver-linux/servers/agentserver/agent_server.cpp:471-499 | a record the server fills from a row takes at most 272 bytes besides its name, and the widest row takes them all |
| CharLobby.ServerRepliesFitExactly | ranserver-linux/servers/agentserver/agent_server.cpp:339-354 | the server's own replies are never refused exactly up to names of 1760 bytes, for every row, library and pending batch |
| CharLobby.LongNameIsRefused | ranserver-linux/servers/agentserver/agent_server.cpp:339-354 | a row with a name of 1761 bytes for which Send refuses the reply |
| LoginTable.CodeTellsEntry | ranserver-linux/servers/agentserver/agent_server.cpp:136-149 | the client is told of success if and only if an entry is made, and the PIN flag is 1 for return 31 and 2 for return 30 only |
| LoginTable.LoginCodes | ranserver-linux/servers/agentserver/agent_server.cpp:98-189 | which code is sent for which answer of the database, each exactly when |
| LoginTable.EntryIsRow | ranserver-linux/servers/agentserver/agent_server.cpp:241-247 | a login succeeds if and only if the return is 1, 2, 3, 30 or 31 and there is a row; the entry holds the row's number and type |
| LoginTable.PinCodes | ranserver-linux/servers/agentserver/agent_server.cpp:406-419 | which code is sent for which PIN answer |
| LoginTable.StepAgrees | ranserver-linux/servers/agentserver/agent_server.cpp:47-68 | no step, of this client or another, breaks the agreement of a client's entry with its history |
| LoginTable.TableRefinesHistory | ranserver-linux/servers/agentserver/agent_server.cpp:190-247 | in every run each client's entry is that of its last successful login not followed by a close, its PIN flag cleared only by a PIN accepted since |
| LoginTable.EntryIsAccount | ranserver-linux/servers/agentserver/agent_server.cpp:190-247 | in every run the entry after the last login that no close follows is the number and type of its row, with flag 1 for return 31 and 2 for 30 until a PIN answer of 0 |
| LoginTable.EntryHasLogin | ranserver-linux/servers/agentserver/agent_server.cpp:190-247 | every entry comes from such a login |
| LoginTable.StaleExactly | ranserver-linux/servers/agentserver/agent_server.cpp:58-62 | an entry belongs to a client that is gone if and only if its login took effect after the client's close |
| LoginTable.StepKeepsConnectedExactly | ranserver-linux/servers/agentserver/agent_server.cpp:241-247 | of all steps only the storing of a login makes an entry of a client that is not connected, if and only if the login succeeded and the client has gone |
| LoginTable.StaleHappens | ranserver-linux/servers/agentserver/agent_server.cpp:193-247 | a concrete run that leaves the entry of a closed client behind |
| LoginTable.AgentServer.OnAccept | ranserver-linux/servers/agentserver/agent_server.cpp:47-66 | the new table, and a client number not used before |
| LoginTable.AgentServer.OnClose | ranserver-linux/servers/agentserver/agent_server.cpp:58-62 | session and entry of the client are erased |
| LoginTable.AgentServer.HandleLogin | ranserver-linux/servers/agentserver/agent_server.cpp:190-257 | the new table and the code sent, for known and unknown clients, valid and invalid names |
| LoginTable.AgentServer.HandlePassCheck | ranserver-linux/servers/agentserver/agent_server.cpp:382-427 | the new table and the code sent; without a pending PIN nothing happens |

## Left out

- The LZO algorithm: the library is outside the repository; only the contract `Lzo.Lawful` is used.
- Failure of `lzo_init` or of memory allocation, and a null message pointer given to `addMsg`: frames are values here.
- Sockets, timers and thread pools: only the steps they induce are kept. A write takes any number of bytes at a time and may fail at any moment.
- Lock-free reads of `m_dwPos` in `getSendSize`: batch buffers are used by the update tick alone.
- Certificate.HandleRequest: requires a NUL in the received text field, because the program reads past the field without one. The database is a function from requests to rows.
- Certificate.Atoi: numbers outside 32 bits follow the C library's strtol cut to 32 bits; the C standard leaves them undefined.
- Framer.EncodeMessage: payloads of 4 GB and more, for which the 32-bit total wraps and the copy overruns the buffer.
- Rc5.KeyExpand: keys of 4 GB, for which the rounding of the length wraps.
- The unused part of G_AUTH_INFO (server name, padding) and its byte layout inside the message.
- Client numbers wrapping around after 2^32 connections, the character-list request, user-name checking and the closing of a session on a short login payload.
- OdbcDb and the stored procedures: their answers are arbitrary inputs.
- Flushing of all sessions at the end of a tick, and the echo of other message types: a call of Flush or Send per session.
- Login, Session and Field servers: echo stubs without behaviour of their own.
- NetServer lifecycle, logging, date parsing and SQL text.
- Whether key and message numbers match the legacy client: not decidable from this code.
