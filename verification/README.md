# Verification model of the node data-exchange repository

Dafny models of the parts of the repository that move data between nodes, and proofs of what those
parts promise. `dafny verify dfyconfig.toml` checks everything. Nothing here was executed.

| file | models |
|---|---|
| `FileSplit.dfy` | cutting a file into blocks and merging them (`utils/FileSplit.h`) |
| `FileTransfer.dfy` | the block transfer protocol as a state machine over a faulty network (`node/src/FileTopic.cpp`) |
| `FileRecovery.dfy` | what can still become of a transfer after its delivery |
| `FileTiming.dfy` | when waits, attempts, blocks and whole files are answered in time |
| `FileTopic.dfy` | the loops of both ends, proved against the state machine and the timing |
| `Crc16.dfy` | the two-table CRC-16 (`cam-app/src/TcpRecv.cpp`, `cam-app/src/TcpRecv.h`) |
| `FrameReceiver.dfy` | reassembling and checking TCP packets (`cam-app/src/UserTcpServer.cpp`) |
| `Wire.dfy`, `MonitorCodec.dfy`, `MonitorMessage.dfy` | the protobuf codec of `TopicMonInfo` (`dds/monitor.pb.cc`) |
| `SnowFlake.dfy` | the id generator (`utils/SnowFlake.h`) |
| `StringTools.dfy`, `TopicKeys.dfy`, `ConfigMap.dfy` | splitting, rewriting, channel keys, partition lookup (`utils/split.h`, `dds/zenoh_topic_manager.cpp`, `utils/config/ConfigMap.cpp`) |
| `TrafficMonitor.dfy` | the traffic counters and what the monitoring node reads (`dds/ZenohBase.h`) |
| `Collections.dfy` | what several of these share |

## How to read it

**File transfer.** A sender publishes block k, waits for any reply that names block k, and retries a
bounded number of times. The receiver stores blocks by number and, when a message marked as last
arrives, merges them, compares the size, moves the file out, clears the store and confirms. In
`FileTransfer.System` the network may lose, repeat and reorder messages both ways, a failed publish
may still have reached the channel, and a reply that is sent may be lost. The store and the sender's
reply queue may hold anything at the start; nothing is in flight then. Assumed are one transfer per
channel, receiver callbacks that run one after the other, and local file operations that work.
A result true means that the file was delivered. The converse is false: `BothEndsArePossible` gives,
for every nonempty file, a run that delivers and reports failure, and `FileRecovery.WhenRecoverable`
says exactly when the sending can still end with true after the delivery. `merge` returns 0 also when block 0 is missing; `WhenConfirmed`
says exactly when the receiver confirms, so that only the size check tells the two apart. The loops in
`FileTopic` carry a ghost trace of sender steps; their contracts say that the trace is a run of the
state machine with the returned result, and that the messages sent are those the trace publishes.

**Time.** `FileTiming.Surroundings` says what happens around the sender, point by point: which replies come
in, whether a put works, by how much a sleep is longer than asked for. All of it is arbitrary. It decides
every answer: `WaitForReply`, `SendOneBlock` and `SendFile` say in their contracts which, and the lemmas of
`FileTiming` say what that means in replies and milliseconds.

**Packets.** A handler call sees its bytes as an arbitrary list of chunks. `Decide` judges a whole byte
string, `Handle` follows the two receive phases over chunks, and the class works in place on its
buffers. The source copies each receive behind what it has, without asking whether it fits; a copy
that does not is the outcome `Overrun`, which the methods exclude and `WhenPiecesFit` bounds. `InTime`
says in terms of the receives alone that each phase gets its bytes. The CRC is the register of section 6.2.2 of the MODBUS over Serial Line Specification and
Implementation Guide V1.02, with its two bytes swapped, as the tables compute it.

**Codec.** Varints, tags and length-prefixed strings follow the Protocol Buffers Encoding document
("Base 128 Varints", "Message Structure", "Last One Wins"). A message is the list of its 13 field
values; the class holds 13 named members and a ghost list that it keeps equal to them. Bytes are
integers from 0 to 255 here, because varints are arithmetic, and `bv8` in the packet and file modules.

**Ids.** Words are integers with explicit wrap-around. The clock is a list of arbitrary readings. An id
keeps 42 bits of the time since the start time, so order holds inside one window of 2^42 ms, before the
start time too, and breaks at every boundary.

**Strings and keys.** `subreplace` is followed round by round; for one replaced character it ends if and
only if the character is absent from the string or from the replacement.

**Counters.** Steps that record and steps that publish do not interleave. Each put may fail.

## Model

| member | source | states |
|---|---|---|
| FileTransfer.TrueMeansDelivered | node/src/FileTopic.cpp:1144-1182 | under any loss, repetition and reordering, everything moved out is the source file, and a sending that ends with true has been delivered |
| FileTransfer.StopAndWait | node/src/FileTopic.cpp:1173-1179 | while nothing was moved out, the store holds the sender's bytes of every block below the current one, and the first last block to arrive is merged, moved out and confirmed |
| FileTransfer.RunKeepsInvariant | node/src/FileTopic.cpp:1204-1339 | every run of sender, receiver and network keeps the stop-and-wait invariant |
| FileTransfer.StepKeepsInvariant | node/src/FileTopic.cpp:1265-1329 | each single step keeps it |
| FileTransfer.HandleKeepsReceiver | node/src/FileTopic.cpp:328-431 | handling a block keeps what is stored and delivered, and answers only for a stored block or a delivery |
| FileTransfer.SenderStepKeeps | node/src/FileTopic.cpp:1265-1316 | the sender moves on only past blocks that are stored, and ends with true only after a delivery |
| FileTransfer.LastBlockCompletes | node/src/FileTopic.cpp:341-383 | with all earlier blocks stored, the last block yields the file, an empty store and the confirming reply |
| FileTransfer.MergeOfProperStore | node/src/FileTopic.cpp:1513-1549 | a store of this file's blocks never merges to a wrong file of the right size |
| FileTransfer.WhenConfirmed | node/src/FileTopic.cpp:368-427 | a last block is confirmed if and only if all blocks are there with the announced size, or block 0 is missing and the announced size is 0 |
| FileTransfer.EveryAnswer | node/src/FileTopic.cpp:355-431 | each message adds at most one reply, naming its block: state 5 if and only if a file was moved out in this step, state 4 if and only if a last message finds all blocks but no byte, state 1 if and only if it is not the last; a message is stored, unless it completes a file of the announced size |
| FileTransfer.RepliesKeepTheirOrder | node/src/FileTopic.cpp:264-281 | over any run the replies are taken out in the order in which they were queued, none lost, added or changed |
| FileTransfer.ConfirmedMeansComplete | node/src/FileTopic.cpp:1513-1549 | with the blocks that split makes, the last one is confirmed if and only if every block is present |
| FileTransfer.PublishedIsBounded | node/src/FileTopic.cpp:1265-1329 | from any sender state, each block is published at most as often as retries are left, in block order |
| FileTransfer.SendingIsBounded | node/src/FileTopic.cpp:1165-1181 | a sending publishes at most blocks times (retries + 1) messages, and none with negative retries |
| FileTransfer.SenderPartRuns | node/src/FileTopic.cpp:1204-1339 | the sender's share of a system run is a run of the sender alone |
| FileTransfer.SystemRunIsBounded | node/src/FileTopic.cpp:1165-1181 | the bound and the order hold whatever the network does |
| FileTransfer.BothEndsArePossible | node/src/FileTopic.cpp:1294-1329 | every nonempty file has a run that succeeds, one that delivers yet reports failure, and one that loses its confirmation |
| FileRecovery.WhenRecoverable | node/src/FileTopic.cpp:1265-1329 | after the delivery, a waiting sender can still end with true if and only if a reply naming the last block can reach it, or all earlier blocks are stored or under way and the last one can come |
| FileRecovery.LostConfirmationIsFinal | node/src/FileTopic.cpp:1513-1549 | a lost confirmation can be made up for if and only if there is one block and a retry |
| FileRecovery.ReachedIsSettled | node/src/FileTopic.cpp:1204-1339 | every state reached after the delivery with the sender on the last block is one that the exact condition speaks of |
| FileRecovery.HopelessStep | node/src/FileTopic.cpp:328-431 | once neither way is open, no step of sender, receiver or network opens one |
| FileRecovery.BlocksGetThrough | node/src/FileTopic.cpp:341-383 | blocks under way complete the file again and bring a confirmation that the sender accepts |
| FileRecovery.ReplyGetsThrough | node/src/FileTopic.cpp:1288-1316 | a reply naming the last block, in a queue or under way, ends the sending with true |
| FileTransfer.BlocksGoThrough | node/src/FileTopic.cpp:1173-1179 | without faults the sending comes to the last block with all earlier ones stored |
| FileTransfer.GivesUp | node/src/FileTopic.cpp:1322-1329 | a waiting sender can run out of retries and report failure |
| FileTopic.FileSender.SendFile | node/src/FileTopic.cpp:1144-1182 | the result is true if and only if the file is there, holds a byte and every block is answered in its turn; what it does is a run of the sender that ends with this result, and it sends what that run publishes, within the bound |
| FileTopic.FileSender.SendOneBlock | node/src/FileTopic.cpp:1204-1339 | the sending goes on, or ends with true for the last block, if and only if one of the attempts that the retries allow is answered within the time for this block; it is a run from taking the block up to the next block or to the end |
| FileTopic.FileSender.PublishBlock | node/src/FileTopic.cpp:1265-1280 | old replies are dropped, the block is sent once, a failed put counts as a retry, and the wait begins with the replies that came in between |
| FileTopic.FileSender.WaitForReply | node/src/FileTopic.cpp:1282-1324 | it is answered if and only if a poll within the time finds a reply to this block at the front of the queue, and reports a timeout only when the whole time is over |
| FileTopic.FileSender.PollUntilAnswered | node/src/FileTopic.cpp:1287-1324 | the poll loop ends as the timing says, polling every 10 ms, and always ends |
| FileTopic.FileSender.PollReplies | node/src/FileTopic.cpp:1293-1316 | one poll takes the oldest reply away, and is the answer if and only if that names the block |
| FileTopic.FileSender.TryBlock | node/src/FileTopic.cpp:1274-1324 | one attempt is answered exactly as the timing says, with the longer or shorter time as the block asks for |
| FileTiming.WaitMeans | node/src/FileTopic.cpp:1287-1324 | a wait is answered if and only if some poll before the timeout takes away a reply that names the block |
| FileTiming.ReplyReachesFront | node/src/FileTopic.cpp:1293-1302 | replies are taken first come, first served, one a poll |
| FileTiming.AnsweredWaits | node/src/FileTopic.cpp:1287-1324 | a reply behind others is in time if its poll comes before the timeout; without a reply naming the block, or without time, no wait is answered |
| FileTiming.OneReply | node/src/FileTopic.cpp:1287-1321 | a single reply coming in at poll j is in time if and only if it names the block and 10 j ms are less than the timeout |
| FileTiming.BlockMeans | node/src/FileTopic.cpp:1265-1334 | a block is answered if and only if one of maxRetry + 1 attempts succeeds, within blockLastTimeout seconds for the last block and blockTimeout for every other |
| FileTiming.PromptRepliesSucceed | node/src/FileTopic.cpp:1165-1181 | if attempts at every block succeed whenever they are made, all blocks are answered |
| FileTiming.OneLostBlockFails | node/src/FileTopic.cpp:1173-1181 | one block that no attempt gets through makes the sending fail |
| FileTiming.SendingNeeds | node/src/FileTopic.cpp:1265-1334 | a sending succeeds only with a first attempt, a put that works, time for every block and a reply that names it |
| FileTopic.FileSender.HandleReply | node/src/FileTopic.cpp:469-471 | whatever the sender is doing, the reply callback is the arrival step of the state machine |
| FileTopic.SendFileIsSafe | node/src/FileTopic.cpp:1144-1182 | if the sender's share of a system run is what SendFile did, its result true means the file was moved out |
| FileTopic.FileReceiver.HandleFileData | node/src/FileTopic.cpp:328-431 | store, replies and delivered files change as the state machine says, whose answers EveryAnswer pins down |
| FileTopic.FileReceiver.MoveClearTmp | node/src/FileTopic.cpp:1513-1550 | a merged file of the announced size is moved out, the store cleared and the file confirmed; otherwise nothing changes |
| FileTopic.FileReceiver.SendNextReply | node/src/FileTopic.cpp:264-281 | one round of the reply loop is the system step that sends the oldest reply, which only that step can lose |
| FileSplit.TempDir.Split | utils/FileSplit.h:88-139 | the directory holds the file's blocks under their numbers, and other files are left alone |
| FileSplit.TempDir.ReadBlock | utils/FileSplit.h:125-133 | the inner loop takes one full block, or what is left |
| FileSplit.TempDir.Merge | utils/FileSplit.h:141-198 | return value and merge.out are those of the merge specification; without a directory it fails |
| FileSplit.BlocksAreCounted | node/src/FileTopic.cpp:1165 | the number of blocks is the announced number |
| FileSplit.BlocksCoverFile | utils/FileSplit.h:112-134 | the blocks joined are the file, none is empty, all but the last are full |
| FileSplit.SplitThenMerge | utils/FileSplit.h:88-198 | merging the blocks of a nonempty file returns 0 and the file |
| FileSplit.MergeOfAllBlocks | utils/FileSplit.h:160-197 | a complete set of blocks merges to the joined blocks |
| FileSplit.MergeOfPartialStore | utils/FileSplit.h:171-174 | a missing block stops the merge at the least missing number with exactly the earlier blocks written |
| FileSplit.GapIsLeastMissing | utils/FileSplit.h:160-174 | the number where merging stops is missing and all below it are there |
| Crc16.NCrc16 | cam-app/src/TcpRecv.cpp:5-17 | the table loop computes the bit-by-bit checksum of every byte string |
| Crc16.TablesAreEightSteps | cam-app/src/TcpRecv.h:42-48 | the two table entries of a byte are the two halves of eight shifts |
| Crc16.RegisterIsFeed | cam-app/src/TcpRecv.cpp:10-15 | working bytewise is working through the message bit by bit |
| Crc16.WindowInjective | cam-app/src/TcpRecv.cpp:10-15 | from one register, up to sixteen bits are determined by where they lead |
| Crc16.BurstChangesChecksum | cam-app/src/TcpRecv.cpp:5-17 | any change within sixteen consecutive bits changes the checksum, for messages of any length |
| Crc16.AdjacentBytesChangeChecksum | cam-app/src/TcpRecv.cpp:10-16 | any change of one byte or of two adjacent bytes changes the checksum |
| Crc16.OddErrorsChangeChecksum | cam-app/src/TcpRecv.cpp:5-17 | any odd number of changed bits changes the checksum |
| Crc16.CheckMatchesIffResidueZero | cam-app/src/UserTcpServer.cpp:189 | the check bytes match if and only if the register over data and check is empty |
| Crc16.CheckValue | cam-app/src/TcpRecv.cpp:5-17 | the digits 1 to 9 have the check value 0x4B37 of this CRC, sent low byte first |
| FrameReceiver.UserServiceHandler.OnSocketReadable | cam-app/src/UserTcpServer.cpp:100-222 | whenever no receive runs past the buffer, the verdict of the in-place handler is that of the chunk specification |
| FrameReceiver.UserServiceHandler.RecvAllData | cam-app/src/UserTcpServer.cpp:251-272 | the buffer holds what the gathering specification says, after at most 101 receives |
| FrameReceiver.UserServiceHandler.ReceiveMore | cam-app/src/UserTcpServer.cpp:256-264 | a receive that fits is appended to the buffer |
| FrameReceiver.UserServiceHandler.ReadHeader | cam-app/src/UserTcpServer.cpp:127-158 | header mark and length are read in network order and checked |
| FrameReceiver.UserServiceHandler.CheckBuffer | cam-app/src/UserTcpServer.cpp:164-200 | end code, check code and payload of the buffer are judged like the byte string |
| FrameReceiver.HandleIsDecide | cam-app/src/UserTcpServer.cpp:115-200 | for every way of cutting the bytes that stays inside the buffer, the verdict is that of the whole byte string if each phase gets its bytes within its own 100 receives, and the handler gives up if and only if not |
| FrameReceiver.ChunkingDoesNotMatter | cam-app/src/UserTcpServer.cpp:251-272 | two ways of cutting the same bytes, both in time and inside the buffer, give the same verdict |
| FrameReceiver.PayloadMeansPacket | cam-app/src/UserTcpServer.cpp:115-200 | the handler parses a payload if and only if the bytes come in time and begin with a packet of allowed length that carries it |
| FrameReceiver.PacketIsAccepted | cam-app/src/TcpRecv.h:12-32 | every printed packet of allowed length is accepted with its payload |
| FrameReceiver.AcceptedIsPacket | cam-app/src/UserTcpServer.cpp:127-200 | what is accepted as a whole packet is a printed packet, with the parsed header |
| FrameReceiver.WhyRejected | cam-app/src/UserTcpServer.cpp:106-200 | which of the verdicts a byte string gets, from its bytes: nothing came, bytes are missing, or the first that is wrong of header, end code and check code |
| FrameReceiver.FieldsOfHeader | cam-app/src/TcpRecv.h:12-32 | the place of every header field, with the length in network order |
| FrameReceiver.PacketAlone | cam-app/src/UserTcpServer.cpp:106-163 | a packet of allowed length that comes alone never runs past the buffer however it is cut, and is judged if and only if it comes in time |
| FrameReceiver.WhenPiecesFit | cam-app/src/UserTcpServer.cpp:251-272 | no input with pieces of at most m bytes makes a receive run past the 65535-byte buffer if and only if m is at most 642 |
| FrameReceiver.LargePiecesOverrun | cam-app/src/UserTcpServer.cpp:256-262 | pieces of 643 bytes behind a header that announces 65000 bytes run past the buffer |
| FrameReceiver.SmallPiecesFit | cam-app/src/UserTcpServer.cpp:251-272 | pieces of at most 642 bytes never do |
| FrameReceiver.BurstNeverYieldsPacket | cam-app/src/UserTcpServer.cpp:177-194 | no change within sixteen consecutive bits turns a packet into another one |
| FrameReceiver.GatherKeepsBytes | cam-app/src/UserTcpServer.cpp:254-270 | gathering loses, repeats and reorders no byte |
| FrameReceiver.GatherOutcome | cam-app/src/UserTcpServer.cpp:254-270 | a phase runs past the buffer if and only if one of its receives does not fit; otherwise it succeeds if and only if the receives left bring enough bytes, and takes no more than it needs |
| FrameReceiver.NeededIsLeast | cam-app/src/UserTcpServer.cpp:254-270 | the number of receives a phase takes is the least that brings enough bytes |
| FrameReceiver.ReadsArePieces | cam-app/src/UserTcpServer.cpp:256 | the bytes of n receives are the first n pieces, if each fits a receive |
| Wire.VarintRoundTrip | dds/monitor.pb.cc:514-534 | a written varint is read back, whatever follows it |
| Wire.VarintMeans | dds/monitor.pb.cc:514-534 | a varint holds the value in base 128, lowest digits first, with the top bit set on all bytes but the last and no byte wasted |
| Wire.WhenVarintDecodes | dds/monitor.pb.cc:320-323 | a varint is read up to its first byte without the top bit, and fails if the limit comes before it |
| Wire.StringRoundTrip | dds/monitor.pb.cc:455-463 | a written string is read back, whatever follows it |
| Wire.WhenStringDecodes | dds/monitor.pb.cc:310-312 | a string is read if and only if its length is at most 2147483631 and as many bytes follow |
| Wire.SignsRoundTrip | dds/monitor.pb.cc:466-470 | 32-bit and 64-bit numbers, negative ones included, survive the 64-bit form |
| Wire.SignsAgree | dds/monitor.pb.cc:320-323 | a number is read as the one in the range of its width that agrees with what was sent in the low 32 or 64 bits |
| Wire.Utf8IsEncodedText | dds/monitor.pb.cc:312-314 | a string passes the UTF-8 check if and only if it encodes code points as RFC 3629 says |
| MonitorCodec.RoundTrip | dds/monitor.pb.cc:303-568 | a message comes back from its bytes if and only if its strings are UTF-8 |
| MonitorCodec.BytesHoldTheSetFields | dds/monitor.pb.cc:450-568 | the bytes are exactly the fields that differ from 0 or the empty string, each once, behind its tag constant and in the order of the numbers; only the empty message has no bytes |
| MonitorCodec.MergeMeans | dds/monitor.pb.cc:667-715 | a merge takes over a field if and only if the other message has something else than 0 or the empty string in it; merging an empty message changes nothing |
| MonitorCodec.ParseMerges | dds/monitor.pb.cc:303-448 | parsing a serialized message into another one merges it, or fails if a string is not UTF-8 |
| MonitorCodec.ParseOfTwo | dds/monitor.pb.cc:667-715 | the bytes of two messages one after the other parse to their merge |
| MonitorCodec.ParseConcat | dds/monitor.pb.cc:303-438 | parsing a complete piece and going on is parsing the joined bytes, for any bytes |
| MonitorCodec.TrailingZero | dds/ZenohBase.h:284-286 | a zero byte after a message, and anything behind it, leaves all fields as they are |
| MonitorCodec.OtherTagsStop | dds/monitor.pb.cc:426-435 | a tag 0 or an end-group tag ends the message before the rest is read |
| MonitorCodec.WhenTagOrNumberIsRead | dds/monitor.pb.cc:306-323 | tags are read from at most 5 bytes and numbers from at most 10, to these values |
| MonitorCodec.IllegibleFieldFails | dds/monitor.pb.cc:310-318 | the first string that is not UTF-8 is stored and ends the parse, and later fields keep their values |
| MonitorCodec.FieldRoundTrip | dds/monitor.pb.cc:303-438 | a written field is parsed to its value, whatever follows it |
| MonitorMessage.TopicMonInfo.InternalParse | dds/monitor.pb.cc:303-448 | the parse loop leaves the fields and the status of the specification, for any bytes |
| MonitorMessage.TopicMonInfo.ParseRound | dds/monitor.pb.cc:306-435 | the switch over the 13 tags is the specification's field lookup |
| MonitorMessage.TopicMonInfo.InternalSerialize | dds/monitor.pb.cc:450-568 | the bytes are those of Serialize, which BytesHoldTheSetFields describes |
| MonitorMessage.TopicMonInfo.ByteSizeLong | dds/monitor.pb.cc:570-658 | the size, added up in another order than the bytes are written, is their number |
| MonitorMessage.TopicMonInfo.MergeImpl | dds/monitor.pb.cc:667-715 | the object becomes the merge of the two messages, which MergeMeans describes |
| MonitorMessage.KnownTags | dds/monitor.pb.cc:308-424 | the 13 tag constants of the switch are those of the 13 fields, of their kinds, and no other tag is |
| MonitorMessage.MergeIntoHolds | dds/monitor.pb.cc:675-713 | overriding the 13 members one by one is the merge of the field lists |
| SnowFlake.Generator.GenerateId | utils/SnowFlake.h:89-110 | state, result and clock are those of the call specification, which WhenNoId and WhatACallGives describe for every state and all readings |
| SnowFlake.Generator.GetNextMill | utils/SnowFlake.h:38-44 | it returns the first later reading |
| SnowFlake.WhenNoId | utils/SnowFlake.h:89-104 | a call ends the process if and only if the first reading is below the last one, and waits if and only if the readings end before one that can serve |
| SnowFlake.WhatACallGives | utils/SnowFlake.h:89-110 | otherwise the first reading serves, or the first later one if this millisecond is used up; the id has the next number within its millisecond, from 0 on |
| SnowFlake.OneMillisecond | utils/SnowFlake.h:97-104 | up to 4096 calls in one millisecond give consecutive ids from sequence 0 on, and the next call takes the first later reading |
| SnowFlake.Generator.Create | utils/SnowFlake.h:74-87 | a generator exists if and only if both numbers are in range, and starts fresh |
| SnowFlake.PackIsSum | utils/SnowFlake.h:106-109 | shifts and bitwise or put the four fields side by side |
| SnowFlake.IdDecodes | utils/SnowFlake.h:18-29 | an id gives back offset, datacenter, machine and sequence |
| SnowFlake.NextIdAdvances | utils/SnowFlake.h:89-105 | each id comes from a strictly later moment, sequence wrap-around included |
| SnowFlake.WhenIdsIncrease | utils/SnowFlake.h:89-110 | for readings between two bounds, in any order, the ids increase if and only if the bounds lie in one window of 2^42 ms counted from the start time |
| SnowFlake.IdsStrictlyIncrease | utils/SnowFlake.h:89-110 | with readings in one window, the id's time range among them, the ids of a run strictly increase |
| SnowFlake.IdsNameTheirGenerator | utils/SnowFlake.h:105-109 | every id of a run names its datacenter and machine, whatever the clock shows |
| SnowFlake.GeneratorsNeverCollide | utils/SnowFlake.h:74-110 | generators with different numbers never share an id, over any two runs |
| SnowFlake.IdsTellTheTime | utils/SnowFlake.h:105-109 | the time in an id is a reading, and below offset 2^41 the id is below 2^63 |
| SnowFlake.IdsFallAtABoundary | utils/SnowFlake.h:106 | from the last moment of any window to the first of the next the id falls |
| StringTools.SubReplace | utils/split.h:32-41 | it ends for a shorter replacement or an absent character, leaves no occurrence, and for one character is the one-pass map |
| StringTools.WhenCharReplacementEnds | utils/split.h:32-41 | replacing one character ends if and only if the string or the replacement lacks it |
| StringTools.ShorterReplacementEnds | utils/split.h:32-41 | a shorter replacement always ends |
| StringTools.SelfReplacementNeverEnds | utils/split.h:36-39 | a replacement that contains what it replaces never ends |
| StringTools.OnlyTheFirstIsReplaced | utils/split.h:51-61 | wherever the target first occurs, exactly that occurrence is exchanged; a string without it stays as it is |
| StringTools.SplitInto | utils/split.h:10-22 | the reading loop computes the pieces of the specification |
| StringTools.JoinOfSplit | utils/split.h:10-22 | the joined pieces are the string but for one delimiter at its end, and no piece has a delimiter |
| StringTools.SplitOfJoin | utils/split.h:10-22 | joined pieces are split into the same pieces, but for an empty last one |
| TopicKeys.KeySplits | dds/zenoh_topic_manager.cpp:65-102 | a key splits at its slashes into the segments of its topic |
| TopicKeys.NamesAreReadBack | dds/zenoh_topic_manager.cpp:82-116 | every domain and direction is read back from its name, and other names stand for the defaults |
| TopicKeys.KeyTells | dds/zenoh_topic_manager.cpp:65-116 | all fields of a topic can be read from its key |
| TopicKeys.KeysAreInjective | dds/zenoh_topic_manager.cpp:65-102 | different topics with slash-free fields have different keys, although one direction prints two segments |
| TopicKeys.WhenKeyIsUnique | dds/zenoh_topic_manager.cpp:65-102 | a topic shares its key with no other topic if and only if no field has a slash and it has one direction |
| TopicKeys.SlashesOfKey | dds/zenoh_topic_manager.cpp:65-102 | a key has seven slashes of its own, those of its fields, and one more for both directions |
| TopicKeys.SlashMoves | dds/zenoh_topic_manager.cpp:65-77 | every topic with a slash in a field shares its key with another topic |
| TopicKeys.TemplateGivesNodeKey | node/src/main.cpp:809-822 | replacing the first star of a template gives the key of the node if and only if no earlier field has a star |
| TopicKeys.NodesNeverShareAChannel | node/src/main.cpp:803-847 | two templates or two nodes that differ in anything have different channels |
| ConfigMap.GetNodePartitions | utils/config/ConfigMap.cpp:35-65 | the result is the comma-join of what was there and the nonempty map entries of the keys, in their order |
| ConfigMap.EntriesAreValues | utils/config/ConfigMap.cpp:15-22 | what is found are the nonempty values of the given keys and nothing else; keys without a value add nothing |
| ConfigMap.PartitionsOfJoinedKeys | utils/config/ConfigMap.cpp:35-65 | joined keys give the entries of the keys in their order |
| TrafficMonitor.TrafficIsConserved | dds/ZenohBase.h:75-325 | over any run in which puts may fail, what was published and what is pending add up to what was recorded, for each counter |
| TrafficMonitor.FlushConserves | dds/ZenohBase.h:272-330 | a publishing round neither loses nor doubles traffic, whichever puts fail |
| TrafficMonitor.WhatARoundPublishes | dds/ZenohBase.h:281-325 | a counter is published if and only if it counted something and no put before it or of its own fails |
| TrafficMonitor.WhatAFlushReports | dds/ZenohBase.h:281-325 | a round reports counters as they are, in their order, and only those that counted something |
| TrafficMonitor.TotalsNameLastSample | dds/ZenohBase.h:152-263 | a counter carries the uuid, topic, source, target, type, program and time of its last sample, and the configured domain and cycle |
| TrafficMonitor.ReportsNameLastSample | dds/ZenohBase.h:152-330 | every report of a run carries those of the last sample recorded in its counter before it |
| TrafficMonitor.SwitchedOff | dds/ZenohBase.h:152-156 | without monitoring nothing is recorded, and without a publisher nothing is published |
| TrafficMonitor.WhenTrafficIsRead | monitor-app/src/MonitorTopic.cpp:73-84 | the monitoring node reads all 13 published values if and only if the strings before the numbers are UTF-8; otherwise it reads no traffic |
| TrafficMonitor.MonitoringNodeReadsLastSample | monitor-app/src/MonitorTopic.cpp:73-104 | field by field, what the monitoring node reads in a report is the last sample its counter recorded before it, the configured domain and cycle, and the traffic added up until then |
| TrafficMonitor.PayloadHoldsTheFields | dds/ZenohBase.h:284-286 | a payload is the set fields of its counter with a zero byte behind them |
| TrafficMonitor.MonitoringNodeSeesAllTraffic | monitor-app/src/MonitorTopic.cpp:73-84 | with less than 2^63 bytes, what the monitoring node reads and what is pending add up to what was recorded if and only if no report of the counter has an illegible string before its numbers |
| TrafficMonitor.LegibleSamplesMakeLegibleReports | dds/ZenohBase.h:152-263 | if the strings of all recorded messages are UTF-8, those of all reports are |
| TrafficMonitor.RunIsGood | dds/ZenohBase.h:152-263 | such a run keeps every counter in the range of its fields |
| TrafficMonitor.ZenohBase.PublishRound | dds/ZenohBase.h:272-330 | one round of the loop over the four messages is the publishing specification, and its reports name this node |
| TrafficMonitor.RecordAddsOneMessage | dds/ZenohBase.h:152-178 | recording adds one message and its bytes to its own counter and nothing to the others, or nothing at all |
| TrafficMonitor.ZenohBase.StatWriterMonData | dds/ZenohBase.h:75-90 | a sent message is recorded in the first counter, which names this node as the source with type 1; an empty one is not recorded |
| TrafficMonitor.ZenohBase.StatReplyWriterMonData | dds/ZenohBase.h:93-108 | a sent reply is recorded in the second counter, which names this node as the source with type 1 |
| TrafficMonitor.ZenohBase.StatReaderMonData | dds/ZenohBase.h:111-126 | a received message is recorded in the third counter, which names this node as the target with type 2 |
| TrafficMonitor.ZenohBase.StatReplyReaderMonData | dds/ZenohBase.h:129-144 | a received reply is recorded in the fourth counter, which names this node as the target with type 2 |

## Left out

- FileTopic.FileSender.SendFile: paths where a block file cannot be opened or something throws, which make the sender go on with the next block; local files are assumed to work. Its requires keeps the block size in bytes within a 32-bit int, in which the source computes it.
- FileTopic.FileReceiver.HandleFileData: the database update after the reply, the directories made for the destination (there is one slot), and an empty save file name, which the sender never sends.
- FileTiming.WaitMeans: time passes in the sleeps between polls, by any amount from 10 ms on; a timeout in seconds times 1000 is not limited to 32 bits.
- FileTransfer.TrueMeansDelivered: speaks of one transfer per channel; a reply of another transfer with the same block number would be taken for this one's.
- FrameReceiver.UserServiceHandler.OnSocketReadable: what the program does after a copy past its buffer is not modelled, so such inputs are excluded, and no others; a receive of no bytes stands for every result of zero or less, and exceptions of the socket are not modelled.
- MonitorMessage.TopicMonInfo.InternalParse: fields with unknown numbers end the modelled parse with a status of its own, and what a failed parse leaves in the field that it could not read is not modelled; the protobuf runtime library is not part of this model.
- SnowFlake.Generator.GenerateId: the process ending on a clock that moved backwards is an outcome, waiting without further readings another; the Windows clock is left out.
- StringTools.WhenCharReplacementEnds: exact for one replaced character; for longer strings only the two sufficient conditions are proved, for ending and for never ending.
- TopicKeys.KeysAreInjective: speaks of topics without slashes in their fields; WhenKeyIsUnique is exact.
- FileTopic.FileSender.SendOneBlock: the same paths are left out here.
- MonitorMessage.TopicMonInfo.ParseRound: likewise, unknown numbers are a status here.
- TrafficMonitor.MonitoringNodeSeesAllTraffic: recorders and publishing rounds do not interleave, and one object's counters stay below 2^63.
- The transfer of a single block with state 3: its reply is never queued and the function has no caller.
- Block numbers are natural numbers; the merge loop of the source takes the total as a 32-bit int.
- Zenoh sessions, sockets, the reactor, MQTT, databases, S3, Podman and hardware probing: foreign calls.
- SQL text building, including `cam-app/src/DataInsert.cpp`: long repetitive formatting.
- Connection flags, process control, log monitoring, queues and plain accessors: nothing beyond easy members, or behaviour that rests on the operating system.
