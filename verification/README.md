# Verification of the underwater server's protocols

A Dafny 4.11 model of the parts of `uwaterServer_20230218` that carry the server's logic, with proofs of
what they promise. `dafny verify dfyconfig.toml` checks everything.

| modules | what they model |
|---|---|
| `Packets`, `FileSender`, `FileReceiver`, `FileTransfer`, `FileCompletion`, `FileOutcome` | the stop-and-wait file transfer `UdpFileSend` / `UdpFileRecv` over a network that loses, repeats and reorders datagrams |
| `RingBuffer` | the ring buffer between one producer and one consumer thread |
| `RowMove`, `CipherTable`, `Cipher`, `OtpBuffer`, `OtpFile` | the cipher: row moves, substitution table, buffer and paged file versions |
| `Crc` | the CRC-32 of the IPC messages |
| `IpcMessage`, `IpcBuilder`, `IpcRoundTrip` | packing data items into a message with a catalogue, and reading it |
| `QueryCondition`, `QueryBuilder`, `QueryParser`, `QueryStream`, `QueryIndex`, `QueryRequest` | query conditions: the builder that patches counts in place, the two parsers, and the interpreter that enumerates indices |
| `TaskMask`, `ThreadPool`, `PoolRuns`, `PoolCode`, `PoolMask`, `PoolProgress` | the thread pool: bit mask, linked queue, all interleavings of workers, adders and the waiting or destroying thread, and their progress |
| `Bytes`, `Wrappers` | bytes, 32-bit ints and their little-endian image; `Option` |

Code that changes things step by step is written as methods with the loops and fields of the original, and
each method is proved equal to a function; the lemmas about those functions carry the promises. The target
is ARM, so a plain `char` is a number from 0 to 255. `int` arithmetic is unbounded where it cannot overflow and
goes through `Bytes.Wrap` where it can. Concurrent parts are step systems in which every access to shared state
is one step, and statements about them hold for every run.

What the proofs say about the code, beyond the happy path:

- `UdpFileRecv` acknowledges a packet once: duplicates are dropped without an answer, and the idle counter is
  reset before it can ever reach its limit of 1000 (main.c:3757-3764). So a lost acknowledgement of a packet
  above 1 stops the transfer for good (`FileTransfer.LostAckIsFatal`, with a run in `FileOutcome.LostAckCanHappen`).
- The sender returns "complete" after sending packet 1 once, whether or not it arrives (main.c:3852-3865;
  `FileOutcome.CompleteWithoutLastPacket` gives a run for every file).
- Over every network, once the sender has returned, the transfer succeeded exactly if the sender heard every acknowledgement above 1
  and the receiver heard packet 1 (`FileOutcome.Completion`).
- The heading of `otp_encrypt` speaks of a bit reversal (encrypt.c:1109-1111); the code has none, it mixes the first
  four key bytes in by exclusive or.
- `get_idx_query_arg` only clamps the upper end of a range, and for an operator it does not know it leaves the
  start as it finds it, unset in `query_level_1_idx`. `QueryIndex.Exact` gives the exact condition under which the
  visited indices are those that match, and `QueryIndex.ExactForAnyStart` the one a caller can check.
- `otp_encrypt` computes `page * length` in an int, which is the page's offset for all pages of a file if and only if
  the file is shorter than 2 GiB (`OtpFile.OffsetsFit`).
- `query_and_give_data` clears its slots once and not per group, so it agrees with `parse_query_cond` exactly when
  each group sets every slot that an earlier one set (`QueryStream.StreamingMatchesParsing`).
- `request_condition_addl` stores the level less one, `request_condition_addv` stores it as given.
- `thread_pool_destroy` can throw queued work away if and only if it is called before any worker has counted itself
  (`PoolRuns.DestroyAtCall`), and the mask bits prevent duplicates if and only if there is at most one adder
  (`PoolMask.NoDoublesIff`).
- With at least one worker the pool never gets stuck: from every reachable state the queued tasks can all be run, a wait
  can end and a destroy can join every worker (`PoolProgress`).
- A message is handled by the handler registered last for its type (`IpcMessage.LatestHandler`).
- `CRC_Byte` and `generate_CRC` are compiled out by `ipc/ipcdef.h:6`; they are modelled as they are written.

## Model

| member | source | states |
|---|---|---|
| Bytes.DecodeEncode | uwaterServer_20230218/main.c:3835 | an int that memcpy puts into a buffer is the int that memcpy takes out of it, negative ones included |
| Bytes.ByteOf | uwaterServer_20230218/main.c:3835 | the least significant byte comes first |
| Packets.Chunk | uwaterServer_20230218/main.c:3829-3831 | every payload is 1 to 1019 bytes, and all but the last are 1019 |
| Packets.PiecesRoundsUp | uwaterServer_20230218/main.c:3818-3819 | the number of packets is the length over 1019, rounded up |
| Packets.PayloadsAreTheFile | uwaterServer_20230218/main.c:3821-3835 | the payloads of the packets N, N-1, ..., 1 joined in that order are the file |
| FileSender.TransmitSound | uwaterServer_20230218/main.c:3823-3851 | at every transmission sendlen is (N-count)*1019 and less than the length, so the "sendlen > length" branch is dead, and the datagram sent is packet `count` of the file |
| FileSender.RunSound | uwaterServer_20230218/main.c:3821-3908 | wherever a run stops the sender's state is sound, and each packet acknowledged cost at most 30 transmissions |
| FileSender.SentIsTheFile | uwaterServer_20230218/main.c:3813-3908 | for every non-empty file and all arrivals: repetitions apart the packets are sent downwards in order, at most 30*(N-1)+1 in all, and on "complete" their payloads are the file |
| FileSender.HearsOnlyItsAck | uwaterServer_20230218/main.c:3870-3907 | a waiting sender moves on exactly on the acknowledgement of its packet, sends again exactly on a time-out, and takes no notice of any other datagram |
| FileSender.SentExactly | uwaterServer_20230218/main.c:3821-3908 | for all arrivals the number of transmissions is that of time-outs taken plus packets acknowledged, plus one if the sender starts by sending |
| FileSender.UdpFileSend | uwaterServer_20230218/main.c:3787-3910 | the two nested loops compute that run, for any sequence of arrivals, and send one datagram to begin with and then one for each time-out and each acknowledged packet: nothing else that arrives is answered |
| FileReceiver.NoRepeatedAck | uwaterServer_20230218/main.c:3725-3770 | a datagram is appended and acknowledged exactly when it is the first or the next lower number; everything else, time-outs included, changes nothing and sends nothing |
| FileReceiver.UdpFileRecv | uwaterServer_20230218/main.c:3699-3783 | the loop, with its `continue` branches, computes the receiver's run for any sequence of arrivals |
| FileTransfer.AnythingMayArrive | uwaterServer_20230218/main.c:3725-3736 | at any time a listening party may hear exactly what the other has ever sent, any datagram that is too short or does not begin with byte 1, or nothing |
| FileTransfer.AckMeansTaken | uwaterServer_20230218/main.c:3884 | an acknowledgement the sender accepts proves that the receiver holds that packet |
| FileTransfer.ReceiverHearsInv | uwaterServer_20230218/main.c:3740-3769 | whatever arrives keeps the joint invariant; a packet that is taken is the one the sender is at |
| FileTransfer.ExecuteInv | uwaterServer_20230218/main.c:3699-3910 | every run over the lossy, repeating, reordering network keeps the joint invariant |
| FileTransfer.Safety | uwaterServer_20230218/main.c:3699-3910 | in every run the received file is the first min(length, (N-count+1)*1019) bytes, the parties are at most one packet apart, a finished receiver has the file, each packet is acknowledged at most once, and "complete" means all but the last packet has been received |
| FileTransfer.LostAckIsFatal | uwaterServer_20230218/main.c:3745-3764 | once the acknowledgement of a packet above 1 is lost, no continuation lets the sender advance or complete or the receiver finish |
| FileCompletion.RoundOutcome | uwaterServer_20230218/main.c:3848-3890 | one transmission and its immediate answer, if the packet arrives, is a legal part of a run and moves the sender on exactly if the packet arrived |
| FileCompletion.LockstepIsARun | uwaterServer_20230218/main.c:3787-3910 | the runs in which each packet that arrives is answered before the time-out, one after the other, are runs of the two-party system |
| FileCompletion.LockstepCompletion | uwaterServer_20230218/main.c:3821-3908 | for every choice of which transmissions arrive that run ends; the sender completes if and only if each packet above 1 arrives within its first 30 transmissions, and the whole file is received if and only if packet 1 arrives too |
| FileOutcome.AcksHeard | uwaterServer_20230218/main.c:3884-3890 | in every run the sender gets past a packet above 1 exactly if it hears that packet's acknowledgement |
| FileOutcome.PacketsHeard | uwaterServer_20230218/main.c:3740-3752 | in every run the receiver takes a packet exactly if it hears it |
| FileOutcome.RunCounts | uwaterServer_20230218/main.c:3847-3851 | the retry counter counts the transmissions of the current packet; packets passed were sent 1 to 30 times |
| FileOutcome.TransmissionsExactly | uwaterServer_20230218/main.c:3821-3908 | in every run over every network the transmissions are one to begin with and one for each time-out and each acknowledged packet |
| FileOutcome.Completion | uwaterServer_20230218/main.c:3699-3910 | for every run over every network in which the sender has returned: it is complete if and only if every acknowledgement above 1 was heard, the transfer succeeded if and only if packet 1 was heard too, and it failed if and only if a packet was sent a 31st time |
| FileOutcome.CompletionWithoutLostAcks | uwaterServer_20230218/main.c:3699-3910 | if every acknowledgement above 1 that was sent is heard, such a run succeeded if and only if every packet was heard |
| FileOutcome.CompleteWithoutLastPacket | uwaterServer_20230218/main.c:3852-3865 | for every file a run in which the sender is complete and the receiver never gets the last packet |
| FileOutcome.LostAckCanHappen | uwaterServer_20230218/main.c:3745-3764 | for every file of two packets or more a run in which the first packet is received, its acknowledgement is lost and the sender fails |
| RingBuffer.Buffer.constructor | uwaterServer_20230218/main.c:261-266 | a buffer of the given size that holds nothing |
| RingBuffer.Buffer.Push | uwaterServer_20230218/main.c:279-289 | the value goes behind the values held, or -1 and no change if there are size-1 of them |
| RingBuffer.Buffer.Pop | uwaterServer_20230218/main.c:292-301 | the oldest value is taken off, or -1 and no change if there is none |
| RingBuffer.StepsOfPush | uwaterServer_20230218/main.c:280-287 | the single accesses of a push, uninterrupted, are the push |
| RingBuffer.StepsOfPop | uwaterServer_20230218/main.c:293-299 | the single accesses of a pop, uninterrupted, are the pop |
| RingBuffer.TestsAreRight | uwaterServer_20230218/main.c:280-293 | the index tests hold exactly when size-1 values, or none, are between the last pop and the last push |
| RingBuffer.StoreIsFree | uwaterServer_20230218/main.c:285 | the slot a push writes never holds a value that has not been popped |
| RingBuffer.HoldsTheRest | uwaterServer_20230218/main.c:279-301 | between the steps of both threads the buffer holds exactly the values pushed and not yet popped, oldest first |
| RingBuffer.ProducerInv | uwaterServer_20230218/main.c:279-289 | each access of the producer keeps the invariant, whatever the consumer is doing |
| RingBuffer.ConsumerInv | uwaterServer_20230218/main.c:292-301 | each access of the consumer keeps the invariant, whatever the producer is doing |
| RingBuffer.PoppedIsPrefixOfPushed | uwaterServer_20230218/main.c:279-301 | in every interleaving the values popped are a prefix of those pushed, at most size-1 are held, no unread slot is overwritten, and a failing call found the buffer full or empty |
| RowMove.SourceTakesRowOut | uwaterServer_20230218/encrypt/encrypt.c:564-1061 | the sixteen branches take row a out and put it back b places further on |
| RowMove.RowsRelocate | uwaterServer_20230218/encrypt/encrypt.c:55-64 | with a, b, c, d the four bit pairs of the key byte from the top: type 0 puts row a back b places on and then row c d places on, type 1 undoes the second move and then the first |
| RowMove.MovedRelocates | uwaterServer_20230218/encrypt/encrypt.c:55-1061 | a whole block's rows are moved so, for both types |
| RowMove.SourceInverse | uwaterServer_20230218/encrypt/encrypt.c:59-64 | the parameters that type 1 computes give the inverse move |
| RowMove.FromInverse | uwaterServer_20230218/encrypt/encrypt.c:50-64 | for every key byte the type-1 move of a block undoes the type-0 move and the other way round |
| RowMove.EncryptLineMove | uwaterServer_20230218/encrypt/encrypt.c:50-1062 | the copies through the scratch block put every byte where the key byte says, within its column |
| CipherTable.CharReplaceTableChange | uwaterServer_20230218/encrypt/encrypt.c:28-42 | for every table that is a permutation every slot is written and the result is its two-sided inverse |
| CipherTable.DistinctCovers | uwaterServer_20230218/encrypt/encrypt.c:33-41 | different values fill the table, which is why every slot is written |
| CipherTable.BaseInverse | uwaterServer_20230218/encrypt/encrypt.c:1118-1135 | the compiled-in table is a permutation that only changes the high nibble, and has an inverse that does too |
| CipherTable.TableRows | uwaterServer_20230218/encrypt/encrypt.c:1118-1135 | all 256 entries of the compiled-in table |
| CipherTable.XorBits | uwaterServer_20230218/encrypt/encrypt.c:1186 | each of the eight bits of the mix is set exactly if text and key differ in it |
| CipherTable.FoldBits | uwaterServer_20230218/encrypt/encrypt.c:1074-1077 | each bit of the fold is set exactly if an odd number of key bytes have it set |
| CipherTable.XorTwice | uwaterServer_20230218/encrypt/encrypt.c:1180-1187 | mixing the same key byte in twice gives the byte back |
| CipherTable.SubstituteInverse | uwaterServer_20230218/encrypt/encrypt.c:1087-1096 | the row-moved inverse table undoes the row-moved table and the other way round |
| CipherTable.FoldedKey | uwaterServer_20230218/encrypt/encrypt.c:1074-1085 | byte 4 of the key's copy is the exclusive or of the key if the key reaches it, and 0 otherwise: a bit is set exactly if the key is longer than 4 and an odd number of its bytes have it set |
| CipherTable.EncryptChange | uwaterServer_20230218/encrypt/encrypt.c:1064-1098 | every byte goes through the table with the columns of each row moved; the rest of the buffer is untouched |
| Cipher.OriginInverse | uwaterServer_20230218/encrypt/encrypt.c:1192-1202 | row moves of whole blocks undo each other, and a short last block is not moved |
| Cipher.RoundTrip | uwaterServer_20230218/encrypt/encrypt.c:1116-1230 | type 1 undoes type 0 and type 0 undoes type 1, for every key with five readable bytes and every text |
| Cipher.PartOfText | uwaterServer_20230218/encrypt/encrypt.c:1267-1303 | a page whose size is a multiple of 16, or the last one, is encrypted alone as it is within the whole text |
| Cipher.OneBlock | uwaterServer_20230218/encrypt/encrypt.c:1176-1210 | a whole block is mixed with the key, row-moved by key byte 4 and substituted; to decrypt, the same backwards |
| Cipher.ShortText | uwaterServer_20230218/encrypt/encrypt.c:1192-1202 | a text shorter than a block is mixed and substituted but not moved |
| Cipher.KnownShortText | uwaterServer_20230218/encrypt/encrypt.c:1116-1230 | fewer than 16 zeros under at most four key bytes below 16 come out as 0xb0 plus the key byte of the column |
| Cipher.KnownBlock | uwaterServer_20230218/encrypt/encrypt.c:1116-1230 | a block of bytes below 16 under four zero bytes and a fifth of 0x10 comes out with its first two rows swapped and 0xb0 added |
| OtpBuffer.BlockIsMixed | uwaterServer_20230218/encrypt/encrypt.c:1176-1202 | mixing in the key and then moving rows gives each place the byte of its origin with its own column's key byte |
| OtpBuffer.MixText | uwaterServer_20230218/encrypt/encrypt.c:1174-1207 | the block loop does so for the whole text, and leaves the short last block unmoved |
| OtpBuffer.OtpEncryptBuf | uwaterServer_20230218/encrypt/encrypt.c:1116-1230 | the function writes exactly the encrypted or decrypted text, for texts below 1 MB, also over its own input |
| OtpFile.MixFileBlock | uwaterServer_20230218/encrypt/encrypt.c:1308-1333 | the early exit through `flag` mixes exactly the bytes of the text, and leaves `flag` set only if the text ends in the block's last row |
| OtpFile.MixPage | uwaterServer_20230218/encrypt/encrypt.c:1306-1347 | `flag` is 0 at the start of every block, so a page is mixed as in the buffer version |
| OtpFile.OffsetsFit | uwaterServer_20230218/encrypt/encrypt.c:1285-1292 | the int product page*length is right for every page of a file if and only if its length fits an int |
| OtpFile.OtpEncrypt | uwaterServer_20230218/encrypt/encrypt.c:1233-1384 | for a file of less than 2 GiB the pages terminate and append the encryption of the whole contents; a missing source changes nothing |
| OtpFile.EncryptThenDecrypt | uwaterServer_20230218/encrypt/encrypt.c:1233-1384 | encrypting a file of less than 2 GiB into an empty one and decrypting that into another gives the file back |
| Crc.OneRound | uwaterServer_20230218/ipc/ipcmsg.c:24-37 | a round is one step of the MSB-first register with polynomial 0x04c11db7, whatever was shifted into the byte |
| Crc.CrcByte | uwaterServer_20230218/ipc/ipcmsg.c:18-39 | `CRC_Byte` is the textbook register; the `bb3` bits never matter |
| Crc.GenerateCrc | uwaterServer_20230218/ipc/ipcmsg.c:42-51 | the loop computes the check of the whole message |
| Crc.CheckOfZero | uwaterServer_20230218/ipc/ipcmsg.c:42-51 | the check of no bytes is 0xffffffff and that of one zero byte is 0x4e08bfb4 |
| Crc.EnterTogether | uwaterServer_20230218/ipc/ipcmsg.c:47-48 | up to four bytes entering one by one are the same bytes entering the register together |
| Crc.CheckOfChecked | uwaterServer_20230218/ipc/ipcmsg.c:372-377 | a message followed by its own check, most significant byte first, has check 0, which is what the receiver tests |
| Crc.BurstDetected | uwaterServer_20230218/ipc/ipcmsg.c:253-266 | replacing up to four consecutive bytes of a message that passes makes it fail |
| Crc.LeadingZeroDetected | uwaterServer_20230218/ipc/ipcmsg.c:42-51 | a zero byte in front changes the check of every message |
| IpcMessage.TypeWordParts | uwaterServer_20230218/ipc/ipcmsg.c:552-564 | the type word gives back the low 24 bits of the type, one bit of each flag and four bits of the action, each at its place in the word; fields of that size arrive unchanged |
| IpcMessage.TidyIsSeparate | uwaterServer_20230218/ipc/ipcmsg.c:560-574 | the payloads that a catalogue describes are aligned, do not overlap and lie between header and catalogue |
| IpcMessage.ReceivedItems | uwaterServer_20230218/ipc/ipcmsg.c:723-732 | reading the newest-first catalogue gives the items oldest first |
| IpcMessage.GetRxDataItemList | uwaterServer_20230218/ipc/ipcmsg.c:702-742 | the list it links is the message's items in their original order |
| IpcMessage.FindDataHandler | uwaterServer_20230218/ipc/ipcmsg.c:611-628 | the first handler in the list for the type, or none |
| IpcMessage.RegisterDataHandler | uwaterServer_20230218/ipc/ipcmsg.c:420-439 | from then on the handler is the one for its type, and other types keep theirs; a null handler changes nothing |
| IpcMessage.LatestHandler | uwaterServer_20230218/ipc/ipcmsg.c:420-439 | the handler found is the one registered last for the type, and none is found if and only if none was registered for it |
| IpcMessage.DispatchedAmongOthers | uwaterServer_20230218/ipc/ipcmsg.c:690-696 | wherever an item stands among others, it is handed once to the handler for its type, between the calls for those before and behind it, or passed over if there is none |
| IpcMessage.DispatchedMeans | uwaterServer_20230218/ipc/ipcmsg.c:690-696 | there are as many calls as items whose type has a registered handler, each for a received item with that item's handler |
| IpcMessage.ProcessReceived | uwaterServer_20230218/ipc/ipcmsg.c:656-700 | the handlers are called on the received items in their order; the count returned is that of the items whose type has a handler, and each call is for a received item with the handler for its type |
| IpcBuilder.IpcMsg.constructor | uwaterServer_20230218/ipc/ipcmsg.c:182-190 | an empty message |
| IpcBuilder.IpcMsg.FillMsgData | uwaterServer_20230218/ipc/ipcmsg.c:536-586 | one more item, aligned, with the information flag of the message's side; the earlier items are unchanged |
| IpcBuilder.IpcMsg.AttachMsgData | uwaterServer_20230218/ipc/ipcmsg.c:588-609 | the newest item's payload grows by the data, the others are unchanged |
| IpcBuilder.IpcMsg.SendIpcMsg | uwaterServer_20230218/ipc/ipcmsg.c:345-367 | header, aligned payloads and catalogue form a message that reads back as the items; payload regions are separate; the builder is empty again |
| IpcBuilder.EntryParts | uwaterServer_20230218/ipc/ipcmsg.c:560-574 | a catalogue entry is 12 bytes: type word, offset and length |
| IpcRoundTrip.BuildSendReceive | uwaterServer_20230218/ipc/ipcmsg.c:318-742 | any sequence of fills and attachments, sent and received, gives the same items in order: 24-bit type, flag bits, own data followed by everything attached, and the information flag 1 from a server and 0 from a client |
| IpcRoundTrip.SidesAreSaid | uwaterServer_20230218/ipc/ipcmsg.c:546-550 | whatever is built, every item from a server says 1 and every item from a client says 0 |
| IpcRoundTrip.OwnDataAndAttached | uwaterServer_20230218/ipc/ipcmsg.c:588-609 | a fill and any number of attachments give one item with the data joined in order, whatever is built before and after |
| QueryCondition.ConditionFormat | uwaterServer_20230218/ipc/ipcmsg_query_req.c:57-73 | a condition is its level, field, operator and operand count, a byte each, and its operands |
| QueryBuilder.InitRequestCondition | uwaterServer_20230218/ipc/ipcmsg_query_req.c:11-24 | an empty head behind what was built; what lies in front and the other items are unchanged |
| QueryBuilder.AddRequestConditionGroup | uwaterServer_20230218/ipc/ipcmsg_query_req.c:27-42 | the newest head's count is patched and an empty group follows; returns the new count |
| QueryBuilder.TakenAreThese | uwaterServer_20230218/ipc/ipcmsg_query_req.c:75-90 | those are the only operands that fit this description of the argument list |
| QueryBuilder.SuppliedMeans | uwaterServer_20230218/ipc/ipcmsg_query_req.c:75-90 | the arguments suffice if and only if such operands exist |
| QueryBuilder.AttachOperands | uwaterServer_20230218/ipc/ipcmsg_query_req.c:75-90 | the do-while takes, for an operator from IN up, all arguments before the end mark, for RANGE the first two and otherwise the first, or fewer if the end mark comes earlier; the count wraps at 256 |
| QueryBuilder.RequestConditionAddl | uwaterServer_20230218/ipc/ipcmsg_query_req.c:45-103 | the newest group has one more condition with level-1 and the operands so described; the group count and the operand count are patched in place |
| QueryBuilder.RequestConditionAddv | uwaterServer_20230218/ipc/ipcmsg_query_req.c:105-144 | the newest group has one more condition with the level as given, or is unchanged if there are no operands |
| QueryCondition.LastIsLast | uwaterServer_20230218/ipc/ipcmsg_query_req.c:301-318 | the last condition for a level and field is the one that no other for them follows |
| QueryParser.NextCondition | uwaterServer_20230218/ipc/ipcmsg_query_req.c:301-318 | the bytes of a condition read back as it, and the next one starts behind its operands |
| QueryParser.ParseConditions | uwaterServer_20230218/ipc/ipcmsg_query_req.c:299-320 | after a group each slot holds the last condition for its level and field |
| QueryParser.ParseQueryCond | uwaterServer_20230218/ipc/ipcmsg_query_req.c:249-327 | undoes the builder: one linked node per group in order, each slot holding that group's last condition with its operands, ending exactly at data_len; no list without data |
| QueryStream.QueryAndGiveData | uwaterServer_20230218/ipc/ipcmsg_query_req.c:178-247 | call g is given the override of groups 0..g, one more call without conditions follows if the last head has no group, and the result is the last call's |
| QueryStream.StreamingMatchesParsing | uwaterServer_20230218/ipc/ipcmsg_query_req.c:201-238 | the two parsers agree on a group if and only if it sets every slot an earlier group set |
| QueryIndex.OperatorLaws | uwaterServer_20230218/ipc/ipcmsg_query_req.c:349-390 | how the meanings of the operators hang together: GE is GT or EQ, LT is not GE, RANGE is GE and LE, IN is EQ to one of the list, and so on |
| QueryIndex.GetIdxQueryArg | uwaterServer_20230218/ipc/ipcmsg_query_req.c:330-397 | start, end and remaining rounds for every operator, with clamping and 32-bit wrap-around, and all null cases |
| QueryIndex.CheckMatchTheType | uwaterServer_20230218/ipc/ipcmsg_query_req.c:399-463 | answers 1 exactly if there is no condition or the operator accepts the type |
| QueryIndex.QueryLevel1Idx | uwaterServer_20230218/ipc/ipcmsg_query_req.c:480-514 | the do-while ends after one round, or one per listed operand, and calls the handler on every index of every range; returns the number of calls |
| QueryIndex.Exact | uwaterServer_20230218/ipc/ipcmsg_query_req.c:349-390 | for every highest index all rounds together visit exactly the matching indices, ascending or in list order, if and only if the operands satisfy a stated condition |
| QueryIndex.ExactForAnyStart | uwaterServer_20230218/ipc/ipcmsg_query_req.c:349-390 | they do so whatever the range variable held before if and only if the operator is a known one and its operands satisfy that condition |
| QueryIndex.NonNegativeIsGood | uwaterServer_20230218/ipc/ipcmsg_query_req.c:349-390 | for a known operator all non-negative operands are good, except GT of the largest int |
| QueryIndex.VisitedIffAccepted | uwaterServer_20230218/ipc/ipcmsg_query_req.c:330-463 | an index is visited exactly if check_match_the_type accepts it for the same operator and operands |
| QueryRequest.WalkGroups | uwaterServer_20230218/ipc/ipcmsg_query_req.c:524-529 | walks the list group by group and adds the counts up |
| QueryRequest.QueryAndGiveDataByIdx | uwaterServer_20230218/ipc/ipcmsg_query_req.c:517-537 | one run of handler calls per group, everything if there are no groups, and the number of calls |
| QueryRequest.RunsAreExact | uwaterServer_20230218/ipc/ipcmsg_query_req.c:480-537 | each group is answered with exactly the indices it asks for if and only if its operands are good |
| QueryRequest.BuildRequest | uwaterServer_20230218/ipc/ipcmsg_query_req.c:11-144 | any allowed sequence of builder calls after a fill makes one item whose payload encodes the heads, groups and conditions added, next to unchanged earlier items |
| QueryRequest.DeliverRequest | uwaterServer_20230218/ipc/ipcmsg_query_req.c:11-144 | sent and received, that item's payload is the encoding |
| QueryRequest.AskAndAnswer | uwaterServer_20230218/ipc/ipcmsg_query_req.c:11-537 | built by any such sequence, sent, received and queried, the handler is called once per group, on exactly the indices asked for if and only if the group has good operands |
| QueryRequest.AskQueries | uwaterServer_20230218/ipc/ipcmsg_query_req.c:11-537 | any sequence of operators with their operands, each asked in a group of its own: every answer is the indices from 0 to the highest one that the operator accepts if and only if its operands are good, and a list of indices in range is answered with exactly that list |
| TaskMask.SetTaskMaskbit | uwaterServer_20230218/utils/thread/thread_pool.c:44-49 | the 32 words stand for a set; the number is added and nothing else changes |
| TaskMask.CleanTaskMaskbit | uwaterServer_20230218/utils/thread/thread_pool.c:51-56 | the number is removed and nothing else changes |
| TaskMask.CheckTaskMaskbit | uwaterServer_20230218/utils/thread/thread_pool.c:37-42 | not zero exactly if the number is in the set |
| ThreadPool.Pool.constructor | uwaterServer_20230218/utils/thread/thread_pool.c:171-204 | an empty pool with a clear mask |
| ThreadPool.Pool.Enqueue | uwaterServer_20230218/utils/thread/thread_pool.c:289-301 | the linked queue has one more task at its end and the size is one more |
| ThreadPool.Pool.Dequeue | uwaterServer_20230218/utils/thread/thread_pool.c:117-137 | leave, find nothing, or take the first task off the queue |
| ThreadPool.Pool.TryWait | uwaterServer_20230218/utils/thread/thread_pool.c:100 | sem_trywait: takes one from the semaphore, or fails and changes nothing when it is 0; the loop around it is two of the worker's steps |
| ThreadPool.Pool.CleanTask | uwaterServer_20230218/utils/thread/thread_pool.c:149-151 | clears the finished task's bit, if it has one, and nothing else |
| ThreadPool.Pool.Finish | uwaterServer_20230218/utils/thread/thread_pool.c:157 | one less in cur_queue_size, nothing else |
| ThreadPool.Pool.AddTask | uwaterServer_20230218/utils/thread/thread_pool.c:241-309 | returns 1 and changes nothing if the bit is set; otherwise sets it, queues and posts |
| ThreadPool.Pool.Discard | uwaterServer_20230218/utils/thread/thread_pool.c:381-386 | empties the queue |
| PoolRuns.StepInv | uwaterServer_20230218/utils/thread/thread_pool.c:79-430 | each step of a worker, an adder or the master keeps the pool's invariant |
| PoolCode.WorkerStep | uwaterServer_20230218/utils/thread/thread_pool.c:79-163 | each step of a worker, carried out on the linked queue, the mask words and the semaphore, is the step of the runs |
| PoolCode.AdderStep | uwaterServer_20230218/utils/thread/thread_pool.c:241-309 | the same for an addition |
| PoolCode.MasterStep | uwaterServer_20230218/utils/thread/thread_pool.c:356-430 | the same for waiting and destroying |
| PoolRuns.Conservation | uwaterServer_20230218/utils/thread/thread_pool.c:97-163 | in every run the queue is what was pushed less what was taken, in order; cur_queue_size counts queued and unfinished tasks; each one taken has run once or its worker is about to run it |
| PoolRuns.TokenMeansTask | uwaterServer_20230218/utils/thread/thread_pool.c:99-137 | before shutdown the queue length is semaphore plus tokens plus missing posts, so a worker with a token never finds it empty |
| PoolRuns.WaitSeesAllDone | uwaterServer_20230218/utils/thread/thread_pool.c:401-430 | thread_pool_wait stops waiting only when everything pushed so far has run once and is finished |
| PoolRuns.DestroyFinishes | uwaterServer_20230218/utils/thread/thread_pool.c:374-386 | a destroyed pool has run everything and discarded nothing if at least one worker was joined; otherwise it has run nothing and discarded everything |
| PoolRuns.DestroyAtCall | uwaterServer_20230218/utils/thread/thread_pool.c:356-399 | at the call: every continuation leaves all tasks done if and only if a worker has counted itself or nothing was pushed; with a worker counted nothing is ever discarded, and without one some continuation discards everything |
| PoolRuns.DestroyCanDiscard | uwaterServer_20230218/utils/thread/thread_pool.c:374-386 | a run in which a pushed task is thrown away |
| PoolMask.SingleAdder | uwaterServer_20230218/utils/thread/thread_pool.c:250-284 | with one adder a bit is set exactly if one task carrying it is queued or running, there is never a second one, and an addition is refused exactly then |
| PoolMask.TwoAddersCanDouble | uwaterServer_20230218/utils/thread/thread_pool.c:250-284 | with any number of workers and at least two adders, a run in which the same bit is queued twice |
| PoolMask.NoDoublesIff | uwaterServer_20230218/utils/thread/thread_pool.c:250-284 | for any number of workers and adders, no run has two tasks of a bit queued or running if and only if there is at most one adder |
| PoolProgress.EveryTaskCanRun | uwaterServer_20230218/utils/thread/thread_pool.c:97-163 | from every reachable state with a worker and no destroy begun, the threads can go on, without a wait or destroy, to where every task pushed has run and cur_queue_size is 0 |
| PoolProgress.WaitCanEnd | uwaterServer_20230218/utils/thread/thread_pool.c:401-430 | from every reachable state with a worker in which thread_pool_wait waits, it can return with everything done |
| PoolProgress.DestroyCanEnd | uwaterServer_20230218/utils/thread/thread_pool.c:356-399 | from every reachable state in which thread_pool_destroy joins, it can return with every worker gone and, if there are workers, every task run and none discarded |
| PoolProgress.StepsOfAdd | uwaterServer_20230218/utils/thread/thread_pool.c:241-309 | an uninterrupted addition is refused without a change if the mask bit is set, and otherwise marks, queues and posts the task |

## Left out

- Sockets, files and system calls: files are byte sequences, a network is the log of datagrams sent, and what `recvfrom` reports is an input. Opening a file that does not exist is modelled for the cipher's source only.
- Datagrams longer than the 1024-byte receive buffers, which would be cut off, are not part of the network; foreign datagrams are shorter than 5 bytes or do not start with byte 1.
- FileSender.UdpFileSend: the `flagSend` test is taken to succeed, since nothing else that runs sets it; the run stops waiting where the given arrivals end.
- RingBuffer: each access to shared memory is one step in program order; weaker memory orders of the target are not modelled. `ring_buffer_destroy` only frees.
- OtpBuffer.OtpEncryptBuf: texts of 1 MB or more are excluded, because the outer loop of the source does not end for them; the buffer read must reach to the end of the last 16-byte block.
- OtpFile.OtpEncrypt: requires a source of less than 2 GiB, as does OtpFile.EncryptThenDecrypt; what `fseek` does with an overflowed offset is not modelled, nor is a destination that cannot be opened.
- Undersized buffers, among them `sndbuf[dataLen]` in `UdpFileSend`, and missing bounds checks in the message builder: large enough buffers are preconditions.
- IpcBuilder.IpcMsg.SendIpcMsg: the shared-memory mailbox, msgid and feedback bits and the compiled-out check behind the catalogue are not part of it.
- IpcMessage.GetRxDataItemList: requires a catalogue that lies inside the received bytes, as does IpcMessage.ProcessReceived; the source does not look.
- File names and the checks on their length.
- Null message and pool pointers, for which the functions return at once: the methods belong to an object.
- QueryBuilder.AddRequestConditionGroup: requires a head, as the source would write through an unset pointer; the two condition functions require a group in the newest head for the same reason.
- QueryParser.ParseQueryCond: requires at most 255 operands per condition and levels 0 and 1 in the two known fields, since the operand count is one byte and the slots have two levels.
- QueryIndex.QueryLevel1Idx: requires an index condition with the operands its operator reads, since the source would read through a null pointer, and a highest index below the largest int, up to which the loop could never end.
- QueryStream.QueryAndGiveData: what the callback does is not modelled, only what it is given and what its calls return.
- ThreadPool: tasks without argument block, which leave the mask bit unset, argument copies, the wait handler, sleeps and thread creation; `thread_pool_exit`, which cancels threads.
- PoolRuns.StepInv: the unlocked updates of `cur_queue_size` and of the mask words are single steps, and destroying a pool is only for when no addition is before its push and none starts later; waiting and destroying are done by one thread.
- The scheduler: `PoolProgress` says that a way on exists from every state, not that the threads take it.
- `shmem_rw_lock` and the mailbox of shmem_msg.c: test and update are separate unsynchronised accesses, and wake-ups depend on the clock.
- The commented-out second file transfer in main.c, the disabled half of `encrypt_line_move`, check sums of the host protocol, coordinate conversion, configuration files and the command loop.
