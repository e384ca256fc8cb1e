# Verification of the SRT core

SwiftSRT carries the SRT 1.4.1 transport library. This project models the parts of that library in which the hard
reasoning lies, and proves what they are for. Each module follows one component; a component that changes its fields step
by step is a class whose methods are proved against functions on a value that stands for its state, and the properties are
lemmas about those functions.

- **Reliable delivery.** `SendBuffer` is the circular linked list of blocks, `Sender` and `SenderState` the numbers and the
  loss list around it. `ReceiveBuffer` is the circular array of units, `Receiver` and `ReceiverState` the numbers and the
  loss list around it. `LossReport`, `LossRanges` and `FreshLoss` are the loss reports. `EndToEnd` puts a network between
  the two sides that loses, duplicates and reorders every message, and proves that what is read is a prefix of what was
  written. `Messages`, `MessageReader` and `MessageDelivery` do the same for whole messages, over whole runs, `OutOfOrder`
  for messages that may come out of order. `SeqNo` says when comparing 31-bit numbers around the circle is comparing packets.
- **Forward error correction.** `FecGeometry` is the layout of rows and staircase columns, `FecClip` the XOR clips,
  `FecSender` the sending side, `FecPeeling` the state of the decoder and what each change keeps, `FecReceiver` the
  two-dimensional peeling decoder itself, `FecSeries` the question when it runs out of columns.
- **Rendezvous handshake.** `Rendezvous` is one side, `RendezvousRun` two sides and the channels between them.
- **Key wrap** (`KeyWrap`), **timestamp unwrapping** (`TimeBase`), **handshake packets** (`HandshakePacket`,
  `HandshakeReader`) and the **registry of sockets and multiplexers** (`Registry`, `RegistryState`).

## Conventions

Packets are numbered with unbounded integers. The program numbers them with 31 bits and compares them around the circle
(Sources/CSRT/include/common.h:604-661); the lemmas of `SeqNo` show that the two agree as long as the numbers compared lie
less than 0x3FFFFFFF apart. The loss lists are sets of numbers; removing a number from the sender's list removes
everything up to it.

Each section under a lock is one atomic step. Processing an acknowledgement is two such steps in `EndToEnd`, with
anything else possible between them. The clock, the congestion window, the flow window, drop thresholds, the encryption
key in use and the outcome of system calls are inputs. AES is any pair of mutually inverse maps of 16-byte blocks.

Where the code does not do what its comments say, the model follows the code:

- The branch of `scanMsg` that is meant to return part of a message larger than the buffer (Sources/CSRT/buffer.cpp:1934-1947)
  reads nothing, because the copying loop then runs from a position to itself (`Messages.PartialMessageReadsNothing`).
- A connection that reaches a listener is meant always to find the listener's multiplexer (Sources/CSRT/api.cpp:1808-1822).
  It does exactly when the listener's port is recorded; a socket that was opened by a failed connect and then listens has
  none recorded (`Registry.United.Adopt`, `Registry.FailedConnectThenListen`).
- A lite acknowledgement is never checked against the last packet sent (Sources/CSRT/core.cpp:7247-7264); the sender stays
  in order exactly when it does not go beyond it (`Sender.Sender.ProcessCtrlAck`).
- When a packet filter hands over several packets at once and a later one lies beyond the buffer, the losses found before
  it are forgotten (Sources/CSRT/core.cpp:8451-8462); `ReceiverState.ArrivalKeepsIff` says exactly when,
  `ReceiverState.LossForgotten` shows an input.
- Cookies half the 32-bit range apart make both sides responders (`Rendezvous.HalfRangeFails`).
- A column control packet can make the filter read past its containers (Sources/CSRT/fec.cpp:1743-1756): the check is for
  fewer than `numberRows()` rows, but row number `numberRows()` is read. `FecReceiver.Receiver.DismissIfPast` says exactly
  when, `FecReceiver.ColumnControlRunsPast` shows an input; a data packet never does.
- The filter makes room for a far column group by dismissing its oldest series of columns, which is said not to happen
  (Sources/CSRT/fec.cpp:2153-2164). When that series is the only one nothing is left, but the code goes on. Data packets
  alone can bring that about (`FecReceiver.FirstPacketRunsOut`); `FecReceiver.Receiver.Receive` says exactly when.
- Rows are shrunk without columns when their number exceeds three times the row length
  (Sources/CSRT/fec.cpp:1439-1450, `FecReceiver.FirstPacketShrinksRows`), which needs 4 * rows - 2 > 3 * cols.
- Every loss is said to be unique in the list of fresh losses (Sources/CSRT/core.cpp:8835-8839). But at every gap of an
  arrival the earlier gaps are recorded again (Sources/CSRT/core.cpp:8518-8530), so a number can wait twice and be reported
  although it has arrived (`FreshLoss.OnceIffOneGap`, `FreshLoss.ArrivedAndStillReported`). Records that wait when the
  tolerance goes down to 0 are neither taken out nor reported.
- A filter string longer than 512 octets is copied past the end of the array for it (Sources/CSRT/core.cpp:2977-2979), while
  stream id and congestion control are checked (`HandshakeReader.StringsComeBackIff`, `HandshakeReader.LongFilterOverruns`).
- A column control packet can dismiss a column of which a member lies beyond the cells there are. `IsLost` takes such a
  number for received (Sources/CSRT/fec.cpp:1542-1560), so that it is never reported. `FecReceiver.Receiver.Receive` says
  exactly which numbers those are, `FecReceiver.ControlPassesOver` shows an input; a data packet never does it.
- A broken connection whose peer comes again is taken out of the queue of the listener that the peer now comes to
  (Sources/CSRT/api.cpp:361-376), which need not be the one where it waits. It is then handed out closed:
  `Registry.ClosedIsHandedOut`; `Registry.United.Accept` says exactly when.

## Model

| member | source | states |
|---|---|---|
| EndToEnd.ReadIsPrefixOfWritten | Sources/CSRT/core.cpp:6908-6953 | In every run of the two sides over a network that loses, duplicates and reorders every message, with or without packets that a filter has rebuilt, what the application has read is a prefix of what the other application has written, and no acknowledgement or loss report ever makes the sender believe in an attack |
| EndToEnd.RunKeeps | Sources/CSRT/core.cpp:7194-7217 | The invariant behind it holds at the end of every run: sender and receiver correspond to the accepted chunks, and every message in the network is genuine and not ahead of its time |
| EndToEnd.SenderStepKeeps | Sources/CSRT/core.cpp:7872-7942 | Every step of the sending side keeps that invariant: submission, first transmission, retransmission, the timer, loss reports, and both halves of processing an acknowledgement with other steps between them |
| EndToEnd.ReceiverStepKeeps | Sources/CSRT/core.cpp:8398-8550 | Every step of the receiving side keeps it: arrivals of one or several packets, lite and full acknowledgements, loss reports, reading |
| EndToEnd.DataArrivesKeeps | Sources/CSRT/core.cpp:8398-8550 | An arrival of any packets that were sent, old or new, or that a filter rebuilt with the payload that was sent, keeps it |
| EndToEnd.AckExtendsStream | Sources/CSRT/core.cpp:6936-6953 | Acknowledging releases exactly the next accepted chunks to the reader: what was read, followed by what waits, is what was accepted up to the acknowledged number |
| EndToEnd.NothingReleasedEarly | Sources/CSRT/core.cpp:7201-7217 | Whatever the receiver lacks of what was sent is still stored by the sender, as it was sent first, and would be scheduled again if the retransmission timer ran out |
| EndToEnd.GuardsHold | Sources/CSRT/core.cpp:7305-7312 | An acknowledgement in the network never exceeds what was sent, so the check that breaks the connection never fires; and everything in the loss list can be read from the buffer |
| EndToEnd.AllArrivedIsAllRead | Sources/CSRT/buffer.cpp:787-845 | When everything accepted is acknowledged, what was read and what waits together are all that was written |
| EndToEnd.NothingMissingAcksAll | Sources/CSRT/core.cpp:6908-6915 | When no number is missing, the next acknowledgement covers everything that was accepted |
| EndToEnd.LossStays | Sources/CSRT/core.cpp:7207-7210 | In every step of either side, a number in the loss list stays there unless it is sent again or an acknowledgement beyond it is processed |
| EndToEnd.LossStaysInRun | Sources/CSRT/core.cpp:7872-7942 | The same between any two moments of any run |
| EndToEnd.LossHasCause | Sources/CSRT/core.cpp:7492-7560 | A number enters the loss list only by a report that lists it or by the timer, and only if it has been sent and is not acknowledged |
| MessageDelivery.MessagesArrive | Sources/CSRT/buffer.cpp:1634-1760 | In every run of submitting, sending and reading messages, once everything accepted is acknowledged, reading on returns exactly the submitted messages that have not been read yet, in order and whole, and then nothing |
| MessageDelivery.MessagesReadAreFirstSubmitted | Sources/CSRT/buffer.cpp:1634-1760 | In every run the messages read are the first messages submitted, in order, none left out and none twice, each whole unless there was less room for it |
| MessageDelivery.NextRead | Sources/CSRT/buffer.cpp:1763-1955 | At any time in a run, if the next unread message is acknowledged as a whole a read returns it, and otherwise nothing changes |
| MessageDelivery.TalkKeeps | Sources/CSRT/buffer.cpp:141-198 | The invariant behind it: what has been accepted spells the submitted messages, and reading stands at the beginning of one |
| MessageDelivery.SlotsHoldAccepted | Sources/CSRT/buffer.cpp:762-785 | Whatever the order of arrival was, the acknowledged slots hold exactly the chunks accepted under their numbers |
| SenderState.AckKeepsIffSent | Sources/CSRT/core.cpp:7194-7217 | The buffer is released before the number of an acknowledgement is checked: the correspondence of chunks and numbers survives exactly the acknowledgements that do not go beyond the packet after the last one sent |
| SenderState.ReleaseKeeps | Sources/CSRT/core.cpp:7201-7213 | Releasing up to a valid number keeps chunk i at number m_iSndLastDataAck + i, the cursor at m_iSndCurrSeqNo + 1 and the loss list between them |
| SenderState.AckTakesWhatItCovers | Sources/CSRT/core.cpp:7201-7213 | Exactly what an acknowledgement covers leaves the queue and the loss list |
| SenderState.FinishKeeps | Sources/CSRT/core.cpp:7249-7331 | The second half of processing an acknowledgement lets m_iSndLastAck catch up with m_iSndLastDataAck and touches nothing else |
| SenderState.SubmitKeeps | Sources/CSRT/buffer.cpp:141-224 | Accepting data keeps the correspondence and gives the new chunks the next numbers |
| SenderState.SendNextKeeps | Sources/CSRT/core.cpp:8011-8028 | A new packet takes a number never used before and carries the chunk accepted under that number |
| SenderState.NoKeyBreaks | Sources/CSRT/buffer.cpp:370-386 | Reading a chunk without an encryption key moves the cursor but no number, and so always loses the correspondence |
| SenderState.LostIsStored | Sources/CSRT/core.cpp:7877-7890 | A packet of the loss list is read at a place that exists, is not empty, and is the packet as it was sent first: the branches for a negative offset and for an empty payload are never taken |
| SenderState.LossReportKeeps | Sources/CSRT/core.cpp:7492-7560 | Processing any loss report keeps the correspondence |
| SenderState.RexmitAllKeeps | Sources/CSRT/core.cpp:9464-9470 | Scheduling everything from m_iSndLastAck to m_iSndCurrSeqNo again keeps it |
| SenderState.DropLateKeeps | Sources/CSRT/core.cpp:5726-5753 | Dropping what is too late, even data never sent, keeps it: the current number jumps to just before the oldest stored chunk |
| Sender.Sender.constructor | Sources/CSRT/core.cpp:3231-3237 | The numbers of a fresh sender correspond to an empty buffer |
| Sender.Sender.SendMessage | Sources/CSRT/buffer.cpp:141-224 | Submission appends the chunks of the message, and nothing else changes |
| Sender.Sender.UpdateSndLossListOnACK | Sources/CSRT/core.cpp:7194-7217 | Releases what is acknowledged without any check: it leaves the buffer and the loss list, and every loss not covered stays; beyond everything stored the count of chunks would go below zero |
| Sender.Sender.ProcessCtrlAck | Sources/CSRT/core.cpp:7237-7331 | Exactly the losses below the acknowledged number leave the loss list, and exactly the chunks below it the buffer; acknowledged number, window and last full acknowledgement follow; the connection stays in order exactly when the number is at most one past the last packet sent; a full acknowledgement beyond that breaks it, a lite one goes unnoticed |
| Sender.Sender.ProcessLossReport | Sources/CSRT/core.cpp:7492-7560 | Exactly the unacknowledged listed numbers enter the loss list; the connection breaks exactly when some range is upside down or ends after the last packet sent |
| Sender.Sender.PackLostData | Sources/CSRT/core.cpp:7872-7942 | The smallest lost number is sent again, and the packet equals the one sent first under that number |
| Sender.Sender.PackData | Sources/CSRT/core.cpp:7944-8035 | A retransmission repeats what was sent, new data takes the next number and the chunk accepted under it, and the correspondence is lost exactly when a new chunk is read without a key; what is sent is the stored chunk with the key in use |
| Sender.Sender.CheckRexmitTimer | Sources/CSRT/core.cpp:9436-9470 | Everything sent and not acknowledged is scheduled again exactly with fast retransmission unless the peer reports losses, or with late retransmission and an empty loss list; otherwise nothing changes |
| Sender.Sender.CheckNeedDrop | Sources/CSRT/core.cpp:5722-5753 | Drops exactly the chunks at the front that are older than the limit, and exactly the losses below the new first number; the current number follows |
| SendBuffer.CutIsWhole | Sources/CSRT/buffer.cpp:170-198 | The chunks of a message put together are the message, and none is empty or longer than the payload size; each has the number, order and times of the message and no key yet |
| SendBuffer.CutIsMarked | Sources/CSRT/buffer.cpp:176-184 | Exactly the first chunk is marked as first and exactly the last as last |
| SendBuffer.SendBuffer.constructor | Sources/CSRT/buffer.cpp:88-114 | The initial circle is an empty queue whose three pointers meet |
| SendBuffer.SendBuffer.Increase | Sources/CSRT/buffer.cpp:584-645 | Splicing new blocks in behind the last pointer changes neither contents nor order nor cursor |
| SendBuffer.SendBuffer.AddBuffer | Sources/CSRT/buffer.cpp:141-224 | On the queue: the chunks of the message are appended, first and last marked, the cursor stays, a free block remains, and the message number wraps before its mask |
| SendBuffer.SendBuffer.ReadNext | Sources/CSRT/buffer.cpp:332-386 | The chunk under the cursor is returned with its key, and the cursor moves on, without a key too; at the end nothing happens |
| SendBuffer.SendBuffer.ReadAt | Sources/CSRT/buffer.cpp:388-456 | The chunk returned is the one that many places after the oldest |
| SendBuffer.SendBuffer.AckData | Sources/CSRT/buffer.cpp:458-473 | On the queue: that many chunks leave the front and the cursor becomes max(cursor - n, 0) |
| SendBuffer.SendBuffer.DropLateData | Sources/CSRT/buffer.cpp:555-582 | On the queue: exactly the late chunks leave the front, the cursor becomes max(cursor - n, 0), and the byte count loses their bytes |
| ReceiverState.ArrivalKeepsIff | Sources/CSRT/core.cpp:8398-8550 | Every number up to m_iRcvCurrSeqNo stays either stored or in the loss list, never both, exactly unless one packet of an arrival lies beyond the buffer while those before it leave numbers out: then the call returns with losses forgotten |
| ReceiverState.SingleArrivalKeeps | Sources/CSRT/core.cpp:8398-8611 | Without a packet filter coverage always survives an arrival |
| ReceiverState.LossForgotten | Sources/CSRT/core.cpp:8451-8462 | An arrival with a gap and then a packet beyond the buffer: the numbers of the gap are neither stored nor lost, and the next acknowledgement covers them |
| ReceiverState.SkippedAreLeftOut | Sources/CSRT/core.cpp:8513-8532 | The numbers found missing by an arrival are exactly the new ones before some packet that fits and not among the packets |
| ReceiverState.TakeUnitKeeps | Sources/CSRT/core.cpp:8410-8549 | Taking one packet that fits keeps every number covered, once the numbers it skips are in the loss list |
| ReceiverState.StoredOrLost | Sources/CSRT/core.cpp:8538-8548 | Slot m_iLastAckPos + k holds number m_iRcvLastSkipAck + k, and each number up to the highest is stored exactly when it is not lost |
| ReceiverState.AckIsSafe | Sources/CSRT/core.cpp:6908-6915 | The next acknowledgement never goes back, so the branch marked not possible is not taken, and everything before it has been stored |
| ReceiverState.AckToKeeps | Sources/CSRT/core.cpp:6931-6953 | Moving the acknowledged position keeps coverage and the number each slot stands for |
| ReceiverState.ReadKeeps | Sources/CSRT/buffer.cpp:787-845 | Reading keeps coverage; the first slot then stands for a number as many places further |
| Receiver.Receiver.ProcessData | Sources/CSRT/core.cpp:8398-8611 | The new state is that of the specification; the call is refused exactly when a packet lies beyond the buffer or none brings anything new; otherwise exactly the numbers found missing are inserted and returned; coverage survives exactly under the stated condition |
| ReceiverState.ExcessiveIsNothingNew | Sources/CSRT/core.cpp:8398-8611 | An arrival counts as excessive exactly when every packet of it was stored before |
| Receiver.Receiver.SendAck | Sources/CSRT/core.cpp:6908-7070 | Sends nothing new if the sender has confirmed it, a lite acknowledgement without touching the state, a full one that releases what it covers, and none too soon after the last; what is sent never goes back, never exceeds the highest number received plus one, and everything before it is stored |
| Receiver.Receiver.ProcessAckAck | Sources/CSRT/core.cpp:7471-7473 | Only a later confirmation moves m_iRcvLastAckAck |
| Receiver.Receiver.Recv | Sources/CSRT/buffer.cpp:787-845 | Reading returns the next waiting bytes in order, of units that are due, and keeps coverage; the branch for a missing unit is never taken |
| ReceiveBuffer.ReceiveBuffer.constructor | Sources/CSRT/buffer.cpp:680-717 | An empty buffer |
| ReceiveBuffer.ReceiveBuffer.AddUnit | Sources/CSRT/buffer.cpp:762-785 | Seen from the reading position: the unit goes into the slot that many places after the acknowledged ones if there is room and it is free, also across the end of the array |
| ReceiveBuffer.ReceiveBuffer.Ack | Sources/CSRT/buffer.cpp:887-911 | That many more slots are acknowledged and the extent of the others shrinks, not below zero |
| ReceiveBuffer.ReceiveBuffer.ReadBuffer | Sources/CSRT/buffer.cpp:787-845 | What was waiting is what was read followed by what still waits; only units that are due are read, and reading ends exactly with what was asked for, what there is, or a unit that is not due |
| ReceiveBuffer.PopFirst | Sources/CSRT/buffer.cpp:815-831 | Reading the rest of the first unit leaves exactly the bytes of the others |
| Messages.NeverAcrossAHole | Sources/CSRT/buffer.cpp:1868-1927 | A message found consists of good units only, from a first chunk to a last one with no other first between, and one that is not acknowledged as a whole is one that may come out of order |
| Messages.NeverDiscardsAMessage | Sources/CSRT/buffer.cpp:1777-1838 | What is skipped at the front never reaches into a complete good acknowledged message |
| Messages.ReadsFirstMessage | Sources/CSRT/buffer.cpp:1634-1760 | If the acknowledged slots hold a message and then other chunks, a read returns that message, cut off at the given length, and leaves exactly the others |
| Messages.ReadsAllMessages | Sources/CSRT/buffer.cpp:1634-1760 | Repeated reads return all whole messages in order and leave the rest |
| Messages.ThenNothingMore | Sources/CSRT/buffer.cpp:1763-1955 | After them a read returns nothing and leaves the beginning of the next message where it is |
| Messages.ReadsNothing | Sources/CSRT/buffer.cpp:1763-1955 | With no whole message acknowledged, nothing is read and no slot changes |
| Messages.PartialMessageReadsNothing | Sources/CSRT/buffer.cpp:1929-1947 | The branch that is meant to return part of a message that fills the buffer is taken only with the first slot and the free last one, and then nothing at all is read |
| Messages.StaysBounded | Sources/CSRT/buffer.cpp:1242-1254 | No operation ever fills the slot that must stay free |
| MessageReader.LookAhead | Sources/CSRT/buffer.cpp:1797-1823 | Says whether the acknowledged slots are good up to a last chunk or all the way |
| MessageReader.SkipBad | Sources/CSRT/buffer.cpp:1777-1838 | The slots are those of the specification with the bad ones at the front emptied |
| MessageReader.FindMessage | Sources/CSRT/buffer.cpp:1848-1955 | Finds the message of the specification at its positions in the array; otherwise reports, as found, exactly a message whose first position is the one behind its last |
| MessageReader.ReadMessage | Sources/CSRT/buffer.cpp:1634-1760 | The returned bytes and the slots left are those of the specification, and no more than asked for |
| OutOfOrder.NeverTwice | Sources/CSRT/buffer.cpp:1732-1755 | In every run of arrivals, acknowledgements and reads, with messages in any order and any chunk arriving any number of times, no chunk is delivered twice: once delivered it is behind the front or no longer good |
| OutOfOrder.IsDelivered | Sources/CSRT/buffer.cpp:1846-1920 | A complete message that may be delivered now - acknowledged, or allowed to come out of order - is delivered, as it stands and as far as there is room, after at most as many reads as there are good chunks before it and one more |
| OutOfOrder.ReadyOrRead | Sources/CSRT/buffer.cpp:1634-1760 | Each read meanwhile delivers that message or one that ends before it, and then leaves it complete and unchanged |
| OutOfOrder.FindsOne | Sources/CSRT/buffer.cpp:1871-1920 | When there is a message that may be delivered, one is found, and none that ends later |
| OutOfOrder.NeverSkipped | Sources/CSRT/buffer.cpp:1778-1840 | What is skipped at the front never reaches into a complete message, acknowledged or not |
| OutOfOrder.ReadIs | Sources/CSRT/buffer.cpp:1634-1760 | A read finds only good chunks, which are gone or marked afterwards, and leaves all other places behind the new front as they were |
| OutOfOrder.ReadIsReadMsg | Sources/CSRT/buffer.cpp:1634-1760 | These reads are those of the buffer |
| OutOfOrder.StaysInReach | Sources/CSRT/buffer.cpp:762-785 | A chunk that is taken in lies within what the scan looks at, and stays there |
| LossRanges.TranslateLossRecords | Sources/CSRT/fec.cpp:1948-1974 | A set becomes sorted, disjoint, non-adjacent ranges with exactly that union |
| LossReport.EncodeLossReport | Sources/CSRT/core.cpp:8199-8228 | The words are those of the ranges one after the other, a single number as one word |
| LossReport.DecodeLossReport | Sources/CSRT/core.cpp:7478-7560 | The loop over any words yields the loss list and the verdict of the specification, also when a second word is missing |
| LossReport.WireAgrees | Sources/CSRT/core.cpp:7492-7560 | Reading the words of a list of ranges is taking those ranges |
| LossReport.ReportComesThrough | Sources/CSRT/core.cpp:7510-7560 | For ranges up to the last packet sent, exactly the listed numbers at or after m_iSndLastAck are inserted and the report is secure |
| LossReport.SecureMeansSent | Sources/CSRT/core.cpp:7510-7546 | A report is secure exactly when no range is upside down or ends after the last packet sent |
| LossReport.DecodeStaysInside | Sources/CSRT/core.cpp:7525-7554 | Whatever the words, nothing acknowledged and nothing unsent enters the loss list and nothing leaves it |
| LossReport.EncodeOneMore | Sources/CSRT/core.cpp:9263-9272 | Adding a record to a report appends its one or two words |
| FreshLoss.FreshList.Skip | Sources/CSRT/core.cpp:8513-8532 | At a gap, all gaps found so far in the same arrival are recorded, not only the new one |
| FreshLoss.FreshList.Arrive | Sources/CSRT/core.cpp:8398-8550 | The gaps of one arrival are recorded gap by gap, the earlier ones again and again |
| FreshLoss.OnceIffOneGap | Sources/CSRT/core.cpp:8513-8532 | Numbers wait at most once exactly as long as no arrival leaves more than one gap |
| FreshLoss.AppendedCount | Sources/CSRT/core.cpp:8524-8530 | A number of gap k of n is recorded n - k times |
| FreshLoss.ArrivedAndStillReported | Sources/CSRT/core.cpp:8513-8532 | With 4 received and the filter giving out 7 and 10, number 5 still waits after it has arrived |
| FreshLoss.FreshList.Unlose | Sources/CSRT/core.cpp:8822-8868 | The number is taken out of the first record that has it, by shortening, deleting or splitting it; returned is how long it had still to wait; without a tolerance nothing happens |
| FreshLoss.FreshList.Review | Sources/CSRT/core.cpp:8660-8712 | The records at the front whose time is up are reported, all others wait one packet less; without a tolerance nothing happens |
| FreshLoss.UnloseTakesOne | Sources/CSRT/core.cpp:8822-8868 | The number that arrived waits in one record less, and every other number as often as before |
| FreshLoss.ReviewReportsOrKeeps | Sources/CSRT/core.cpp:8660-8712 | Of the records that have a number, each is either reported or goes on waiting |
| FreshLoss.ReportedInTime | Sources/CSRT/core.cpp:8660-8712 | A record is reported, in one piece, after exactly as many reviews as the longest wait of its own and of those before it says |
| FreshLoss.WaitsAsGiven | Sources/CSRT/core.cpp:8660-8712 | While the tolerance does not go down, every record waits exactly as many reviews as it was given |
| FreshLoss.TtlIsOfFirst | Sources/CSRT/core.cpp:8823-8829 | The time returned for a number that waits is that of the first record that has it |
| SeqNo.CircularAgrees | Sources/CSRT/include/common.h:604-637 | For distances below the threshold, circular distance and comparison of 31-bit numbers are those of the packets |
| SeqNo.ThresholdIsTight | Sources/CSRT/include/common.h:604-637 | At the threshold the order is reversed |
| SeqNo.SteppingAgrees | Sources/CSRT/include/common.h:615-661 | Stepping by any number and the length of a range agree all around the circle |
| FecReceiver.Receiver.Receive | Sources/CSRT/fec.cpp:678-798 | For every loss, duplication and reordering of genuine packets: all that is rebuilt equals what the sender sent; nothing is left to rebuild in the window; nothing reported irrecoverable is known. The three ways in which the window can fall apart are told from the state before the call: running out of columns exactly; shrinking rows for a new data packet and never if 4 * rows - 2 <= 3 * cols; dismissal past the containers only by a column control packet, exactly if it makes nothing rebuilt; what a packet makes reported is exactly what the columns lack that it is past, each number once in all, and for a packet that makes nothing rebuilt it is told from the state before |
| FecReceiver.DismissedIsAccounted | Sources/CSRT/fec.cpp:1663-1704 | Every member of a dismissed column is known, was reported as irrecoverable, or lay beyond the cells when its column was looked at |
| FecReceiver.PastIsAccounted | Sources/CSRT/fec.cpp:1642-1704 | After a packet of a later series, the same holds of every column of the first series that the packet is past, dismissed with its matrix or not |
| FecReceiver.DismissedMatrixIsAccounted | Sources/CSRT/fec.cpp:1706-1803 | Whenever the oldest matrix is dismissed because a packet is past it, the same holds of all its columns: it takes no number away unnoticed |
| FecReceiver.LossIsReported | Sources/CSRT/fec.cpp:788-795 | Two by two, number 0 lost and 1 to 4 received: packet 4 makes exactly number 0 reported |
| FecReceiver.ControlPassesOver | Sources/CSRT/fec.cpp:1542-1560 | Two by two with a staircase, the control packet of the third column group comes first: 0, 2 and 3 are reported, but 5, beyond the cells, is neither known nor reported although its column is dismissed |
| FecReceiver.FirstPacketRunsOut | Sources/CSRT/fec.cpp:2151-2175 | Five by five with a staircase, first packet number 56: the only series of columns is shrunk away |
| FecReceiver.FirstPacketShrinksRows | Sources/CSRT/fec.cpp:1426-1452 | Two by three, first packet in row 7: the rows are shrunk without the columns |
| FecReceiver.ColumnControlRunsPast | Sources/CSRT/fec.cpp:1740-1760 | Two by two, the control packets of the second row and of the third column group: the check lets dismissal run past the rows |
| FecSeries.MarkedRunsOut | Sources/CSRT/fec.cpp:2151-2175 | For a packet that is marked, room for its column lacks exactly if there is one series of columns and its group is beyond the first of the third series |
| FecSeries.MemberCanBePlaced | Sources/CSRT/fec.cpp:1376-1421 | While there is one series of columns, what a packet of it makes its row rebuild has its place |
| FecSeries.HungRowCanBePlaced | Sources/CSRT/fec.cpp:1054-1063 | So has what a row control packet makes its row rebuild |
| FecSeries.LackAfterFold | Sources/CSRT/fec.cpp:1282-1424 | What a row is found to lack after folding can be told from the state before, and with it whether there is a place for it |
| FecReceiver.Receiver.constructor | Sources/CSRT/fec.cpp:126-192 | The initial window is aligned and has nothing to rebuild |
| FecReceiver.Receiver.RcvRebuild | Sources/CSRT/fec.cpp:1282-1424 | The mutual recursion of rows and columns ends, because each rebuilt packet is a new member of a group with a control packet; afterwards nothing is left to rebuild, and the lacking packet is rebuilt; columns run out exactly if the first packet, rebuilt in a row, has no place |
| FecReceiver.Receiver.TakeRebuilt | Sources/CSRT/fec.cpp:1284-1358 | The packet taken out of the clip is the sender's, in length, flags, timestamp and payload; its cell is marked |
| FecReceiver.Receiver.Declip | Sources/CSRT/fec.cpp:1286-1336 | Undoing the clip gives back the lacking packet, and its length never exceeds the payload size |
| FecReceiver.Receiver.FoldAndRebuild | Sources/CSRT/fec.cpp:1376-1421 | Folding a packet into a group and rebuilding what it then lacks leaves nothing to rebuild anywhere |
| FecReceiver.Receiver.LackOf | Sources/CSRT/fec.cpp:1054-1063 | A packet to rebuild is found exactly when the group has its control packet and lacks one; cells may be created, none of them marked |
| FecReceiver.Receiver.HangHorizontal | Sources/CSRT/fec.cpp:1019-1073 | A data packet is folded into its row, a control packet completes the row, and everything that becomes possible is rebuilt |
| FecReceiver.Receiver.HangVertical | Sources/CSRT/fec.cpp:1562-1621 | The same for columns, and then dismissal is looked for in the window as it is after rebuilding; the losses reported are known to nobody |
| FecReceiver.Receiver.TakeControl | Sources/CSRT/fec.cpp:453-476 | A control packet is folded in once; it carries exactly the fold of the group where the receiver finds it |
| FecReceiver.Receiver.CheckLargeDrop | Sources/CSRT/fec.cpp:823-918 | A packet more than two series ahead, going by its column, empties the window and moves it so that the packet is in the second series; any other leaves it alone; bases stay aligned |
| FecReceiver.Receiver.RcvCheckDismissColumn | Sources/CSRT/fec.cpp:1623-1813 | Nothing happens for a column of the first series; otherwise exactly the unmarked members of the columns that are over are reported, none of them known and none reported before, and the oldest matrix goes exactly when the packet is far enough past it; a data packet never makes it run past the containers, nor misses a number |
| FecReceiver.Receiver.CollectPastColumns | Sources/CSRT/fec.cpp:1648-1704 | Exactly the columns of the first series that are over become dismissed; exactly their unmarked members within the cells are collected, and those beyond the cells are missed |
| FecReceiver.Receiver.DismissIfPast | Sources/CSRT/fec.cpp:1706-1813 | Dismisses one matrix exactly when the packet is far enough past and rows exist; runs past the containers exactly when no more than one matrix of rows, one series of columns or less than a matrix of cells exist |
| FecReceiver.Receiver.DismissMatrix | Sources/CSRT/fec.cpp:1755-1803 | The new bases of columns, rows and cells agree, so both branches that repair a discrepancy are never taken, and everything still holds of the moved window |
| FecReceiver.Receiver.ExtendRows | Sources/CSRT/fec.cpp:1426-1474 | Rows are appended in arithmetic progression, or the container is shrunk exactly beyond three times the row length |
| FecReceiver.Receiver.ExtendColumns | Sources/CSRT/fec.cpp:2151-2242 | Series are appended, after dismissing the oldest matrix beyond two series; the index moves with it |
| FecReceiver.Receiver.RcvGetRowGroupIndex | Sources/CSRT/fec.cpp:1476-1516 | The index returned is that of the row containing the number, and the row exists; rows are shrunk exactly when it is new and beyond three times the row length |
| FecReceiver.Receiver.RcvGetColumnGroupIndex | Sources/CSRT/fec.cpp:1976-2149 | The index returned is that of the one column group containing the number, -1 exactly when there is none, and the group exists; columns run out exactly when a series has to go and there is only one, or no whole matrix of rows and cells |
| FecReceiver.Receiver.RcvGetLossSeqHoriz | Sources/CSRT/fec.cpp:1177-1227 | The first unmarked member of the row, or none exactly when all are marked |
| FecReceiver.Receiver.RcvGetLossSeqVert | Sources/CSRT/fec.cpp:1229-1280 | The first unmarked member of the column group, or none exactly when all are marked |
| FecReceiver.Receiver.CellAt | Sources/CSRT/include/fec.h:152-163 | The mark of a cell; cells that do not exist are created unmarked |
| FecReceiver.Receiver.MarkCellReceived | Sources/CSRT/fec.cpp:1518-1540 | Exactly that cell becomes marked, with unmarked cells before it if need be |
| FecReceiver.NewBaseIsNear | Sources/CSRT/fec.cpp:893-912 | Seen from the base chosen after a large drop, the packet's column group is one of the second series |
| FecReceiver.ControlFitsGroup | Sources/CSRT/fec.cpp:627-676 | A genuine control packet carries the fold of the group in which the receiver finds its number |
| FecPeeling.PeelingIsMaximal | Sources/CSRT/fec.cpp:1343-1421 | When nothing is left to do, no live group that holds its control packet has exactly one unmarked member |
| FecPeeling.PeeledIsClosed | Sources/CSRT/fec.cpp:1343-1421 | A steady decoder knows every packet that peeling yields from what it knows and the control packets in its window |
| FecPeeling.OrderDoesNotMatter | Sources/CSRT/fec.cpp:678-798 | Two decoders in a steady state, given the same packets and with all groups of the control packets still in the window, know the same packets, whatever the order of arrival |
| FecPeeling.RebuiltIsGenuine | Sources/CSRT/fec.cpp:1284-1336 | The clip of a group that lacks one packet is that packet |
| FecPeeling.FoldKeeps | Sources/CSRT/fec.cpp:426-451 | Folding a marked packet keeps: clip = XOR of the clipped members and of the control packet if it came, collected = their number, clipped implies marked |
| FecPeeling.ControlKeeps | Sources/CSRT/fec.cpp:453-476 | Folding a control packet in keeps the same |
| FecPeeling.MarkKeeps | Sources/CSRT/fec.cpp:1518-1540 | Marking a packet keeps the same, if the packet is one that peeling justifies |
| FecPeeling.AppendKeeps | Sources/CSRT/fec.cpp:1453-1464 | Appending fresh groups keeps everything |
| FecPeeling.DropKeeps | Sources/CSRT/fec.cpp:1755-1803 | Dismissing one matrix renumbers rows and columns and keeps everything said of the rest |
| FecPeeling.SameGroupAsSender | Sources/CSRT/fec.cpp:2050-2095 | The group the receiver finds for a number is the group the sender had it in, however often the window has moved |
| FecGeometry.ConfigureColumns | Sources/CSRT/fec.cpp:194-265 | Column c of a series gets base isn + c + cols * (c mod rows) with staircase arrangement, isn + c without |
| FecGeometry.ColumnPartition | Sources/CSRT/fec.cpp:2050-2095 | Column groups over all series are disjoint and cover every number at or after the base of its column: a number is in group ix exactly when ix is the index computed for it |
| FecGeometry.RowPartition | Sources/CSRT/fec.cpp:1476-1516 | Rows partition everything from the base on |
| FecGeometry.ShiftByMatrices | Sources/CSRT/fec.cpp:293-309 | Moving the base by whole matrices renumbers groups and changes none |
| FecSender.Sender.constructor | Sources/CSRT/fec.cpp:160-186 | The sender starts with the first row and the first series of columns |
| FecSender.Sender.FeedSource | Sources/CSRT/fec.cpp:311-415 | After n packets the open row and every column hold exactly the fold of their members among those n, and full groups move to their next place |
| FecSender.Sender.PackControlPacket | Sources/CSRT/fec.cpp:521-625 | Whatever is returned is the genuine control packet of a finished group; one is returned exactly when one is due |
| FecClip.ClipData | Sources/CSRT/fec.cpp:500-519 | Clipping is the XOR of length, flags, timestamp and padded payload |
| FecClip.UnclipReturnsPacket | Sources/CSRT/fec.cpp:1286-1336 | The packet whose clip is given comes out with its own length, flags, timestamp and payload |
| FecClip.MissingMember | Sources/CSRT/fec.cpp:1284-1336 | The XOR of all members and of all but one is that one |
| Rendezvous.RolesAreOpposite | Sources/CSRT/core.cpp:3614-3658 | Two nonzero cookies give exactly one initiator exactly when they differ, and not by half the 32-bit range |
| Rendezvous.HalfRangeFails | Sources/CSRT/core.cpp:3635-3643 | With cookies half the range apart both sides become responders |
| Rendezvous.GreaterIsInitiator | Sources/CSRT/core.cpp:3614-3658 | The side with the greater cookie becomes the initiator, as long as they are less than half the range apart |
| Rendezvous.RoleDecidesExtension | Sources/CSRT/core.cpp:4398-4755 | In every state, whatever comes, the initiator answers only with requests and the responder never with one |
| Rendezvous.Endpoint.CookieContest | Sources/CSRT/core.cpp:3614-3658 | The role, once drawn, stays; it is drawn only when both cookies are known |
| Rendezvous.Endpoint.RendezvousSwitchState | Sources/CSRT/core.cpp:4398-4755 | The new state, the response and the kind of extension are those of the transition table; an extension is a response exactly when the side is the responder or was INITIATED |
| Rendezvous.Endpoint.Process | Sources/CSRT/core.cpp:3660-3980 | From arrival to answer: a connected side answers all handshakes but agreements with an agreement, and data or keep-alives connect a side that has seen a handshake |
| RendezvousRun.NeverBothFine | Sources/CSRT/core.cpp:4431-4434 | In every run over lossy in-order channels, with repeated sends and with the last message processed again, the two sides are never both FINE, and neither rejects the handshake |
| RendezvousRun.ImpossibleBranches | Sources/CSRT/core.cpp:4543-4554 | No run reaches the invalid transition, nor the branch of a responder in ATTENTION that is sent a conclusion without extension, nor an agreement in ATTENTION |
| RendezvousRun.ExtensionsByRole | Sources/CSRT/core.cpp:3714-3840 | In every run the initiator sends only HSREQ, and the responder nothing or HSRSP |
| RendezvousRun.ResponseAnswersRequest | Sources/CSRT/core.cpp:3724-3747 | In every run, whenever HSRSP is crafted what has just come carried HSREQ, and whenever the initiator agrees what has just come carried HSRSP: there is always an extension to interpret |
| RendezvousRun.NegotiatedFirst | Sources/CSRT/core.cpp:3843-3880 | No side connects before it has taken the other's extension |
| RendezvousRun.ConnectedTogether | Sources/CSRT/core.cpp:4469-4749 | When the initiator is connected the responder is FINE, INITIATED or CONNECTED; when the responder is connected so is the initiator |
| RendezvousRun.RunKeeps | Sources/CSRT/core.cpp:4469-4749 | The invariant on states, messages sent and messages taken holds at the end of every run |
| RendezvousRun.InitiatorTakes | Sources/CSRT/core.cpp:4537-4666 | Whatever the initiator takes, old or new, keeps the invariant |
| RendezvousRun.ResponderTakes | Sources/CSRT/core.cpp:4537-4749 | Whatever the responder takes keeps it |
| RendezvousRun.NeverGoesBack | Sources/CSRT/core.cpp:4469-4749 | No step ever takes a side back to an earlier stage |
| RendezvousRun.TwoRoundsConnect | Sources/CSRT/core.cpp:7604-7705 | From every reachable pair of states, also after a lost agreement, two rounds in which the newest messages get through connect both sides |
| RendezvousRun.FairRunsConnect | Sources/CSRT/core.cpp:7604-7705 | In every endless run in which, at any time, something of what each side has sent last or sends later still gets through, both sides become connected and stay so, whatever is lost, repeated or late, agreements included |
| RendezvousRun.FourDeliveriesConnect | Sources/CSRT/core.cpp:4469-4749 | Four deliveries in turn, each of a message no older than the newest at the delivery before, connect both sides for good, whatever else happens between them |
| KeyWrap.UnwrapWraps | Sources/CSRT/cryspr.c:142-225 | For mutually inverse block maps and any key of at least one 8-byte word, unwrapping what was wrapped succeeds with that key |
| KeyWrap.WrapUnwraps | Sources/CSRT/cryspr.c:182-225 | Whatever unwraps at all is the wrapping of what comes out |
| KeyWrap.WrapKey | Sources/CSRT/cryspr.c:142-180 | The loop in the output buffer computes the algorithm of section 2.2.1 of RFC 3394, or refuses a length that is not a positive multiple of 8 and touches nothing |
| KeyWrap.UnwrapKey | Sources/CSRT/cryspr.c:182-225 | The loop computes the algorithm of section 2.2.2 of RFC 3394; a refused key leaves zeros; the length loses its prefix in unsigned 32-bit arithmetic |
| KeyWrap.XorCounterIn | Sources/CSRT/cryspr.c:166-173 | Changing one byte, or four once the counter needs them, is the exclusive or with the 64-bit counter |
| KeyWrap.XorsTheCounter | Sources/CSRT/cryspr.c:166-173 | What is exclusive-ored in are the eight bytes that write the counter in base 256, most significant first |
| KeyWrap.WrapIsSteps | Sources/CSRT/cryspr.c:143-184 | Wrapping n words is exactly six times n steps, step m on word (m - 1) % n with counter m, beginning with the register full of 0xA6 |
| KeyWrap.RoundsUndone | Sources/CSRT/cryspr.c:201-219 | The steps run backwards from the last undo the steps run forwards |
| KeyWrap.RoundsRedone | Sources/CSRT/cryspr.c:160-177 | And the other way round |
| TimeBase.RightFromTheStart | Sources/CSRT/buffer.cpp:1422-1483 | If packets lag by less than 30 seconds and the latest time moves by less than 30 seconds per call, base plus timestamp is the first base plus all drift corrections plus the true time, over any number of 32-bit wraps |
| TimeBase.NeverMistaken | Sources/CSRT/buffer.cpp:1422-1483 | The same from any state that is in step with the packets so far |
| TimeBase.PacketInStep | Sources/CSRT/buffer.cpp:1449-1480 | One packet gets the right base and leaves the clock in step, before, in and after the minute around a wrap |
| TimeBase.JumpIsMistaken | Sources/CSRT/buffer.cpp:1473-1480 | A jump of more than 30 seconds over the watch is off by one wrap |
| TimeBase.LatenessIsMistaken | Sources/CSRT/buffer.cpp:1453-1470 | A packet later than 30 seconds is off by one wrap, though all packets before it and all steps of the latest time are within their bounds |
| TimeBase.RcvTime.GetTsbPdTimeBase | Sources/CSRT/buffer.cpp:1422-1483 | One call: the base for this timestamp, and when the watch begins and ends |
| HandshakePacket.PacketComesBack | Sources/CSRT/core.cpp:1860-2116 | The header, exactly the blocks written in their order, and a stream id without zero octets come back from a packet |
| HandshakePacket.ExtensionsComeBack | Sources/CSRT/core.cpp:2884-3004 | Among the blocks read back from the packet each command is found with the words that were written for it: the handshake under the command for its kind and not the other, stream id of a request only, congestion control, filter and key material; what is made of the strings is for the reader |
| HandshakeReader.StringsComeBackIff | Sources/CSRT/core.cpp:2884-3004 | The receiving side takes over exactly the strings that were written if and only if none is longer than 512 octets, none has a zero octet, and it agrees with the congestion control and can use the filter |
| HandshakeReader.InterpretExtensions | Sources/CSRT/core.cpp:2884-3004 | The loop over the blocks of any words: accepted, rejected, or a filter block copied past the array for it |
| HandshakeReader.WrittenIsInterpreted | Sources/CSRT/core.cpp:2884-3004 | What becomes of written blocks: a stream id or congestion control of more than 512 octets is rejected, a longer filter overruns |
| HandshakeReader.LongFilterOverruns | Sources/CSRT/core.cpp:2977-2981 | A filter string of more than 512 octets, which nothing refuses, is copied past the end of the array |
| HandshakePacket.BlocksComeBack | Sources/CSRT/core.cpp:2125-2179 | Walking written blocks yields every one of them, in order, and nothing else, exactly if every command and every size fits into its 16 bits |
| HandshakePacket.ReadsWhatIsThere | Sources/CSRT/core.cpp:2125-2179 | On any words, what is read is the beginning of the words, and reading stops only at the end or at a block longer than the rest |
| HandshakePacket.WalkBlocks | Sources/CSRT/core.cpp:2884-3004 | The loop ends on any words, stays inside the given length and finds exactly the complete blocks |
| HandshakePacket.FindExtensionBlock | Sources/CSRT/core.cpp:2125-2169 | No block exactly when nothing is left or the block is longer than what is left; otherwise its command, its size and the next block |
| HandshakePacket.CreateSrtHandshake | Sources/CSRT/core.cpp:1886-2123 | The words are the header and the blocks in their order; a stream id of half the payload size or more is refused |
| HandshakePacket.ZeroCutsShort | Sources/CSRT/core.cpp:2893-2921 | A string comes back unchanged from its zero-padded words exactly when it has no zero octet |
| HandshakePacket.StoreTo | Sources/CSRT/handshake.cpp:75-95 | The first twelve words become the header and the others stay, or nothing happens if there is too little room; each field is in its own word |
| HandshakePacket.LoadFrom | Sources/CSRT/handshake.cpp:97-117 | The header loaded has exactly the first twelve words, each field from its own word |
| HandshakePacket.HeaderComesBack | Sources/CSRT/handshake.cpp:75-117 | The twelve words determine the header |
| Registry.United.constructor | Sources/CSRT/api.cpp:128-163 | The empty registry is in order |
| Registry.United.NewSocket | Sources/CSRT/api.cpp:276-342 | A number never used before, a live socket without multiplexer; every count stays right |
| Registry.United.Bind | Sources/CSRT/api.cpp:618-650 | Succeeds exactly for a fresh socket if the channel opens or a multiplexer may be shared; it shares one with that port if there is one and else has its own, counted, whose port is recorded; on failure nothing changes |
| Registry.United.Listen | Sources/CSRT/api.cpp:693-751 | Only an open socket that is not meant for rendezvous, or one that listens already, may listen, and only with a positive backlog |
| Registry.United.NewConnection | Sources/CSRT/api.cpp:344-557 | A repeated request changes nothing; otherwise a new socket is connected, located, queued within the backlog, recorded under its peer and counted by a multiplexer, or goes to the closed ones, or the full queue leaves all as it was; other sockets stay as they are |
| Registry.United.Establish | Sources/CSRT/api.cpp:393-557 | The connection is queued exactly when there is room, the handshake succeeds and the listener's port is recorded: then it is connected, unbroken and located, with that port; otherwise live sockets and peers are as before |
| Registry.United.Adopt | Sources/CSRT/api.cpp:403-464 | The new socket of a connection has a number never used before and, exactly when the listener's port is recorded, a multiplexer with that port; a listener opened by a failed connect has none recorded |
| Registry.United.UpdateListenerMux | Sources/CSRT/api.cpp:1852-1876 | The socket shares a multiplexer with the given port, which counts one user more, exactly when there is one; otherwise nothing changes |
| Registry.United.Accept | Sources/CSRT/api.cpp:754-850 | Succeeds exactly for a live listener with someone waiting: the waiting socket with the smallest number moves from the queue to the accepted ones and becomes known to the application; otherwise nothing changes; the socket handed out is located exactly if it is still connected, and else was found broken and closed before |
| Registry.United.Connect | Sources/CSRT/api.cpp:853-931 | Succeeds exactly for an open socket, or a fresh one without rendezvous, that can be started: a fresh socket gets a multiplexer of its own, counted, whose port is not recorded; if starting fails the socket stays open with it |
| Registry.FailedConnectThenListen | Sources/CSRT/api.cpp:895-918 | A socket opened by a failed connect that then listens has a multiplexer but accepts no connection, whatever the backlog |
| Registry.ClosedIsHandedOut | Sources/CSRT/api.cpp:361-376 | A connection waiting at one listener whose broken socket is discarded when its peer comes again to another is handed out although it is closed |
| Registry.United.Close | Sources/CSRT/api.cpp:934-1092 | A socket the application was given moves to the closed ones, if it is located; a listener only becomes broken |
| Registry.United.CheckBrokenSockets | Sources/CSRT/api.cpp:1486-1591 | After a pass exactly those sockets are live that were live, are not broken or kept on purpose, and wait at no listener that is removed; they are what they were, but that the broken ones have left their queues; exactly the others are closed unless their time is up; all counts, maps and queues are in order |
| RegistryState.PassedFrom | Sources/CSRT/api.cpp:1486-1591 | Which sockets a pass closes and which it removes, told from the registry before it |
| Registry.United.RemoveSocket | Sources/CSRT/api.cpp:1593-1683 | The socket leaves all maps, everyone waiting in its queue is closed first, and its multiplexer loses one user and goes exactly with the last one |
| RegistryState.QueuedIsNotAccepted | Sources/CSRT/api.cpp:806-808 | No number is both queued and accepted, or queued at two listeners |
| RegistryState.JoinMuxKeeps | Sources/CSRT/api.cpp:1699-1806 | Sharing or making a multiplexer keeps each count equal to the number of sockets in either map that name it |
| RegistryState.DeleteKeeps | Sources/CSRT/api.cpp:1620-1683 | Deleting a closed socket keeps all counts, records and queues right |
| RegistryState.LeaveCounts | Sources/CSRT/api.cpp:1655-1683 | A multiplexer is deleted exactly when the last socket naming it goes |
| RegistryState.RetiredKeeps | Sources/CSRT/api.cpp:1534-1552 | A broken socket that is closed waits in no queue afterwards, and everything else holds while both maps have it |
| RegistryState.EnqueueKeeps | Sources/CSRT/api.cpp:496-512 | Queuing a new connection keeps every queued number live and unknown to the application |
| RegistryState.DequeueKeeps | Sources/CSRT/api.cpp:800-815 | Accepting keeps them so, and no number is queued and accepted |

## Left out

- EndToEnd.ReadIsPrefixOfWritten: leaves out the arrival of several packets from a packet filter of which one lies beyond the buffer after others have left numbers out; the receiver then forgets those losses and can acknowledge a hole. `ReceiverState.ArrivalKeepsIff` says that this is the only such arrival.
- FecReceiver.Receiver.Receive: says nothing of what happens after one of the three states it names, in which the window no longer fits together; nor does it say exactly when a column control packet that makes packets rebuilt dismisses beyond the containers, or when a rebuilt packet makes the rows shrink.
- FecReceiver.Receiver.ExtendRows: does not follow the rows once they have been shrunk without the columns.
- FecReceiver.Receiver.ExtendColumns: does not follow the columns once the only series has been shrunk away.
- FecReceiver.Receiver.HangHorizontal: does not collect irrecoverable rows, whose range in the code takes in a received packet (Sources/CSRT/fec.cpp:957-961).
- FecReceiver.Receiver.RcvCheckDismissColumn: reports the losses of columns only; the losses of dismissed rows are logged by the code and thrown away in the two-dimensional setup.
- FecPeeling.OrderDoesNotMatter: asks that all groups of the control packets are still in the window and that nothing received has been forgotten; groups dismissed before their control packet came can differ.
- KeyWrap.UnwrapKey: asks for buffers as long as the length after unsigned subtraction says, which for a length of 0 is four gigabytes.
- Sender.Sender.ProcessCtrlAck: nothing is said of the buffer after an acknowledgement beyond everything stored, when the count of chunks would go below zero.
- LossReport.DecodeLossReport: stops at a range whose second word is missing or has its top bit set; the code reads on.
- HandshakePacket.CreateSrtHandshake: asks for a packet long enough for all blocks, which the code does not check; the contents of the HSREQ, HSRSP and key blocks are inputs.
- OutOfOrder.NeverTwice: counts places in the stream; when the front jumps over chunks that begin a message without end, the circle keeps them and they stand for later places.
- Registry.United.NewSocket: asks for a number that is still free; the generator is not followed once it has counted down to 1.
- Registry.United.Close: asks that the application was given the number; closing the number of a connection still queued would leave it in the queue.
- Registry.United.NewConnection: a connection for which no multiplexer is found counts as a failed handshake; the code goes on without queues.
- RendezvousRun.FairRunsConnect: that messages get through some time is an assumption on the network.
- Rendezvous.Endpoint.Process: leaves out the asynchronous path that serialises a request again without processing the last message, and failures to interpret an extension.
- MessageDelivery.MessagesReadAreFirstSubmitted: is about messages to be delivered in order, and about packets as they were sent; a packet that a filter rebuilt carries another message number and counts as a whole message (Sources/CSRT/fec.cpp:1306-1317).
- Sender.Sender.UpdateSndLossListOnACK: says nothing of the buffer after an acknowledgement beyond everything stored.
- Sender.Sender.PackLostData: leaves out the branch for messages whose time to live is over.
- SendBuffer.SendBuffer.ReadAt: leaves out the same branch.
- Receiver.Receiver.ProcessData: leaves out packets that cannot be decrypted, closing on a discrepancy of the buffer, and the list of fresh losses, which is a class of its own.
- LossReport.DecodeStaysInside: stops where LossReport.DecodeLossReport does.
- MessageReader.ReadMessage: leaves out delivery by timestamp.
- Registry.United.Establish: counts a missing multiplexer as a failed handshake too.
- HandshakeReader.InterpretExtensions: takes the swapping of octets for granted, which the code leaves out for the filter string.
- FecReceiver rows-only configuration: a large drop there does not move the base of the cells (Sources/CSRT/fec.cpp:841-869).
- FEC configurations with more than 255 columns or with four matrices beyond a quarter of the number range.
- Sharing of memory: payloads are values in blocks and units, so that two blocks point into one physical buffer and that encryption changes a payload in place are not modelled; a retransmission repeats what was stored.
- Message time-to-live, drop requests and too-late drop on the receiving side: their effect on the receiver's numbers is not modelled.
- Packets that cannot be decrypted, and arrivals while the socket is closing, for which loss detection is skipped.
- The receive buffer's skipping of data, dropped messages and delivery by time; the time at which a unit is due is an input to stream reads.
- Statistics, byte counters of the receive buffer, round-trip and rate estimates, congestion control.
- The older handshake version 4.
- Options, polling, the cache of round-trip times, string tables, the Swift layer and the rest of the cryptography.
