# A verified model of the transport and storage core of fusionFS and HyCache

The project models the stateful algorithms of the repository and proves what they are for.

**The UDT engine in stream mode** (`fusionFS/src/udt/src`) is the main part. It is built in layers.

- `SeqNo` is the 31-bit sequence arithmetic. Every packet also has an unbounded index; the lemmas say
  exactly when arithmetic on wire numbers agrees with arithmetic on indices.
- `LossCells` describes a set of indices kept as intervals in circular arrays. `SndLossList` and
  `RcvLossList` are the two loss lists, classes over the same arrays as the C++ code, each proved to be a
  finite set. `Nak` is the loss report.
- `SndBuffer` is the ring of linked blocks at the sender and `RcvBuffer` the ring of unit slots at the
  receiver, each proved to be a queue of bytes.
- `Sender` and `Receiver` are the two halves of a connection (`CUDT`): the handlers update the sequence
  variables, call the buffers and loss lists, and are proved to take the steps of `Protocol`, a state
  machine on indices.
- `Effects` says of every protocol step what it does, without regard to how: when something goes out and
  what it says, and what an arriving message leaves behind.
- `Runs` puts both halves together over a channel that loses, repeats and reorders messages, and proves
  safety over all runs. `Progress` proves that a run can always be completed.
- `Windows` says what the congestion and flow windows promise over runs, and that what is reported missing
  reaches the sender's loss list.
- `Endpoints` drives a sender and a receiver object along any timely run; their handlers are proved to follow it,
  so that the bytes `recv` returns are a prefix of the bytes `send` took.

The handlers for data packets, acknowledgements and loss reports take any number on the wire; what they
require beyond that is shown to be exactly what keeps the code within the packets it sent. A theorem about
runs holds for the code as long as nothing outlives half the number space (a maximum packet lifetime), which
`Endpoints.Timely` says event by event.

**Beside it** stand six self-contained models.

- `SendHeap`: the heap of sending sockets with back pointers (`CSndUList`).
- `AckWindow`: the history of sent acknowledgements (`CACKWindow`).
- `Md5`: incremental MD5 around an arbitrary block function, against RFC 1321.
- `NoVoHTLog` and `NoVoHT`: the persistent hash table, its chains, and the log it keeps on disk.
- `LruCache`: the LRU cache of ZHT, including a comparison of caches of different capacity.
- `LfuRing`: HyCache's LFU queue on a doubly linked ring.

Ghost fields hold the abstract value of each class and ghost parameters the packet index behind a wire
number; neither influences what the code computes. `Arith` has the few facts about quotients and
remainders that circular buffers need, `Basics` a type for missing values and a few functions and facts on
sequences and maps.

Findings about the code, each stated by a lemma or a contract:

- A light acknowledgement is applied without a check; it keeps the sender's state consistent if and only
  if the number acknowledged was sent (`Protocol.LiteAckKeeps`).
- Removing an entry from the send heap only sifts down. The result is a heap if and only if the hole was
  the first or last place or the moved entry is not before the hole's parent (`SendHeaps.RemovedOrders`,
  with a counterexample in `SendHeaps.RemovedMayBreak` that five sockets served and a sixth request reach).
  Rescheduling a socket removes and inserts, and the
  insertion may repair what the removal broke; `SendHeaps.UpdatedOrders` says exactly when.
- The comparison of sequence numbers strictly orders every run of n consecutive numbers, wherever it
  starts, if and only if n is at most the threshold (`SeqNo.OrderIsExact`); among one number more there is
  already a cycle (`SeqNo.RingIsNotOrdered`).
- `update` of the send heap inserts without enlarging the array, and the engine schedules sockets through
  it alone (fusionFS/src/udt/src/core.cpp:1113, 1303, 1494, 2042, 2162, 2599, 2631); `insert`, which doubles
  the array, has no caller. There is room if and only if fewer sockets are scheduled than the array has places
  (`SendHeaps.CSndUList.RoomIsExact`), so always while no more sockets are open than that
  (`SendHeaps.CSndUList.RoomForOpen`); with 4096 scheduled and another one open the next request would be
  written behind the array (`SendHeaps.Overfull` builds that state).
- The sender accepts some numbers that lie about half the number space away from its own. In a loss report
  the first branch for a pair tests its end only against the largest number sent and its start only against
  the last acknowledgement; for every entry on the ring, the numbers taken are packets in flight if and only
  if the end is one of them too and the start is less than half a ring ahead (`Nak.ItemIsExact`,
  `Nak.ReportIsExact`, `SeqNo.PairIsExact`); with four or more packets in flight what is missing is the test
  of the end against the last acknowledgement (`SeqNo.MissingTest`). `Nak.PairReachesBack` is a report of
  two words that is taken for about 2^30 numbers acknowledged long before.
- A full acknowledgement is tested on both sides, and that is exact but for four combinations of numbers half
  a ring apart with one or two packets in flight at the wrap of the number space (`SeqNo.BetweenIsExact`,
  `Senders.AckIsExact`); `Senders.AckReachesAhead` is one of them.
- An advertised window above the floor of 2 ends within the receive buffer, and a packet sent under it finds
  a free slot (`Effects.GrantsToEdge`, `Windows.SlotOrFirstWindow`). The first window does not: the handshake
  hands over the size of the peer's receive buffer (fusionFS/src/udt/src/core.cpp:602, 749), one slot of which
  stays empty. The promise holds in all runs if and only if the first window is smaller than the buffer
  (`Windows.PromiseIsExact`; `Windows.FirstWindowOvershoots` is a run whose last packet is refused).
- The first flow window must be at least one: then every run can be completed, otherwise none delivers a
  byte (`Progress.NeverStuck`, `Progress.WindowIsNeeded`).
- A pair survives compaction and reloading of the hash table's file if and only if key and value are
  non-empty, shorter than 300 characters, free of tabs, NULs and 0xFF, and the key does not begin with
  '~' (`NoVoHTLog.SurvivesExactlyIfStorable`).
- `resize` zeroes the element count without taking it again. A put that grows the table leaves the count
  equal to the number of keys if and only if the table was empty; every other put and every removal leaves
  it right or wrong as it was (`NoVoHTs.NoVoHT.Put`, `NoVoHTs.NoVoHT.Remove`). `NoVoHTs.CountIsLost` is a
  table where a put breaks it.
- `clear` of the LRU cache does not reset the running size, so the capacity shrinks for good by the size
  of what was cleared (`LruCaches.LRUCache.Clear`). `fetch_ptr` documents a flag to leave the entry
  untouched and ignores it (`LruCaches.LRUCache.FetchPtr`).
- A smaller LRU cache only ever holds what a larger one holds after the same operations if and only if all
  sizes other than zero are equal (`LruCaches.IncludedExactlyIfEven`); with two sizes four operations
  suffice for a difference (`LruCaches.SizedMayDiffer`).
- In the wrapped branch of `acknowledge` the test that would reset the window never holds
  (`AckWindows.AckWindow.DiscardWrapped`).
- An initial sequence number of 0 makes the "largest number sent" -1; incrementing and comparing still
  behave as for its index (`SeqNo.CurrentAgrees`).

## Model

| member | source | states |
|---|---|---|
| SeqNo.WindowAgrees | fusionFS/src/udt/src/common.h:222-237 | offset, comparison, equality and length of two wire numbers are those of their packet indices when these are closer than the threshold |
| SeqNo.WindowIsExact | fusionFS/src/udt/src/core.cpp:71-72 | the threshold is exact: a distance agrees at every place of the ring if and only if it is below 0x3FFFFFFF |
| SeqNo.StepAgrees | fusionFS/src/udt/src/common.h:239-243 | incrementing and decrementing a wire number is doing so to the index, across the wrap |
| SeqNo.CurrentAgrees | fusionFS/src/udt/src/core.cpp:755 | a "largest number so far" of -1, from an initial number of 0, increments and compares as its index does |
| SeqNo.CmpHasSignOfOffset | fusionFS/src/udt/src/common.h:222-237 | for all pairs comparison has the sign of the offset taken the other way, is 0 only for equal numbers, and is antisymmetric |
| SeqNo.WindowIsOrdered | fusionFS/src/udt/src/common.h:222-223 | within any window shorter than the threshold comparison is the strict total order of distances from its start |
| SeqNo.RingIsNotOrdered | fusionFS/src/udt/src/common.h:222-223 | among one consecutive number more than the threshold three form a cycle under comparison |
| SeqNo.OrderIsExact | fusionFS/src/udt/src/common.h:222-223 | comparison strictly orders n consecutive numbers at every place of the ring if and only if n is at most the threshold |
| SeqNo.BetweenIsExact | fusionFS/src/udt/src/core.cpp:1990-2003 | testing any number on the ring against both ends of a window of n numbers passes exactly those n and the listed numbers half a ring away |
| SeqNo.PairIsExact | fusionFS/src/udt/src/core.cpp:2119-2128 | of all pairs that pass the tests of the first branch, those between the last acknowledgement and the largest number sent are the ones whose end is between them and whose start is less than half a ring ahead |
| SeqNo.MissingTest | fusionFS/src/udt/src/core.cpp:2119-2128 | with four packets or more in flight, and such a start, the pair is between them exactly when its end passes the test against the last acknowledgement too |
| SeqNo.IncByIsRepeatedInc | fusionFS/src/udt/src/common.h:239-246 | adding k at once is k single increments |
| SeqNo.OffsetInvertsIncrement | fusionFS/src/udt/src/common.h:225-246 | the offset recovers any increment below the threshold, in both directions, and the length counts both ends |
| SeqNo.ArithmeticFits | fusionFS/src/udt/src/common.h:222-246 | no intermediate value of comparison, offset or increment leaves the 32-bit range |
| SeqNo.LengthFitsUnlessFullRing | fusionFS/src/udt/src/common.h:225-226 | the length leaves the 32-bit range exactly when it counts the whole ring |
| LossCells.MoveStart | fusionFS/src/udt/src/list.cpp:540-568 | moving the start of an interval to the next cell keeps every other interval at its own cell, free cells at -1 and the links intact |
| LossCells.SplitStored | fusionFS/src/udt/src/list.cpp:330-343 | splitting an interval in two stores exactly the two parts |
| LossCells.Absorbed | fusionFS/src/udt/src/list.cpp:223-249 | merging an interval with the next one stores exactly the merged list and frees the cell |
| LossCells.PunchKeeps | fusionFS/src/udt/src/list.cpp:597-624 | taking one number out of the middle of an interval removes exactly that number |
| LossCells.FirstIsLeast | fusionFS/src/udt/src/list.cpp:389-390 | the head of the list is the smallest number in it |
| SndLossLists.SndLossList.constructor | fusionFS/src/udt/src/list.cpp:43-70 | an empty list whose cells are all free |
| SndLossLists.SndLossList.Insert | fusionFS/src/udt/src/list.cpp:85-255 | the set of lost numbers gains exactly seqno1 .. seqno2, and the result is how many of them are new |
| SndLossLists.SndLossList.Place | fusionFS/src/udt/src/list.cpp:106-216 | before merging, the new interval is at its own cell in order, only it may overlap those behind it, and it is the remembered last insertion |
| SndLossLists.SndLossList.Coalesce | fusionFS/src/udt/src/list.cpp:218-252 | merging what the new interval touches keeps the set and makes the intervals disjoint again |
| SndLossLists.SndLossList.Remove | fusionFS/src/udt/src/list.cpp:257-367 | exactly the numbers up to the given one are removed |
| SndLossLists.SndLossList.GetLossLength | fusionFS/src/udt/src/list.cpp:369-374 | the stored length is the number of lost packets |
| SndLossLists.SndLossList.GetLostSeq | fusionFS/src/udt/src/list.cpp:376-418 | removes and returns the smallest lost number, -1 when there is none |
| Nak.DecodeEncode | fusionFS/src/udt/src/core.cpp:2113-2151 | reading the words of an encoded report gives back exactly its entries, in order; it is this reading that `ProcessNak` is specified by |
| Nak.EncodeReports | fusionFS/src/udt/src/list.cpp:682-703 | encoded ranges are 32-bit words that report exactly these ranges, which is what `ProcessNak` asks of its words |
| Nak.HonestReport | fusionFS/src/udt/src/core.cpp:2113-2151 | a report of packets that were sent is accepted whole, and exactly its unacknowledged numbers are taken |
| Nak.TakenIsSent | fusionFS/src/udt/src/core.cpp:2117-2143 | of any list of ranges of packet indices only packets sent and not acknowledged are taken; for the words of a report see `ReportIsExact` |
| Nak.ItemIsExact | fusionFS/src/udt/src/core.cpp:2117-2151 | for every entry on the ring that the code takes: only packets in flight are taken if and only if the entry is sound |
| Nak.ReportIsExact | fusionFS/src/udt/src/core.cpp:2113-2151 | from a report of any entries the code takes only packets in flight if and only if its entries up to the first one refused are sound |
| Nak.PairReachesBack | fusionFS/src/udt/src/core.cpp:2117-2128 | a report of two words from which the code takes 0x3FFFFFFB numbers, both ends of them acknowledged or never sent |
| Nak.HonestReadings | fusionFS/src/udt/src/core.cpp:2113-2151 | the entries for ranges near the sender's own numbers are sound and are taken as these ranges |
| RcvLossLists.RcvLossList.constructor | fusionFS/src/udt/src/list.cpp:422-443 | an empty list whose cells are all free |
| RcvLossLists.RcvLossList.Insert | fusionFS/src/udt/src/list.cpp:453-499 | the set of missing numbers gains exactly seqno1 .. seqno2, extending the last interval where they join |
| RcvLossLists.RcvLossList.Remove | fusionFS/src/udt/src/list.cpp:501-629 | exactly the given number is removed; true if and only if it was missing; next and prior links stay mutually inverse |
| RcvLossLists.RcvLossList.ScanBack | fusionFS/src/udt/src/list.cpp:576-582 | the backward scan stops at the interval that could hold the number |
| RcvLossLists.RcvLossList.Find | fusionFS/src/udt/src/list.cpp:649-667 | true if and only if some missing number lies in the range |
| RcvLossLists.RcvLossList.GetLossLength | fusionFS/src/udt/src/list.cpp:669-672 | the stored length is the number of missing packets |
| RcvLossLists.RcvLossList.GetFirstLostSeq | fusionFS/src/udt/src/list.cpp:674-680 | the smallest missing number, -1 when there is none |
| RcvLossLists.RcvLossList.GetLossArray | fusionFS/src/udt/src/list.cpp:682-703 | the words are the encoding of whole intervals from the first on, all of them unless the limit stops it |
| RcvLossLists.RcvLossList.ReportIsTaken | fusionFS/src/udt/src/core.cpp:2113-2151 | from the words of the receiver's loss array a sender accepts everything and takes exactly the missing numbers it has not had acknowledged, up to where the array was cut off |
| SndBuffers.ChunksHoldData | fusionFS/src/udt/src/buffer.cpp:137-150 | cutting data into packets loses no byte and makes no packet empty or longer than the payload size |
| SndBuffers.ChunkFlags | fusionFS/src/udt/src/buffer.cpp:137-150 | exactly the first and last packet of a call carry the boundary flags, all carry its number, and only the last may be short |
| SndBuffers.ChunksCount | fusionFS/src/udt/src/buffer.cpp:122-124 | the number of packets is the length over the payload size, rounded up |
| SndBuffers.SndBuffer.constructor | fusionFS/src/udt/src/buffer.cpp:47-92 | a closed ring of empty blocks |
| SndBuffers.SndBuffer.AddBuffer | fusionFS/src/udt/src/buffer.cpp:120-164 | the packets of the data are appended to the queue and the message number moves on, skipping 0 at its wrap |
| SndBuffers.SndBuffer.GrowBeyond | fusionFS/src/udt/src/buffer.cpp:126-128 | the growth loop ends with room for the new blocks and one to spare, and the queue is unchanged |
| SndBuffers.SndBuffer.Increase | fusionFS/src/udt/src/buffer.cpp:285-342 | a unit of new blocks is spliced into the ring without changing what is queued or its order |
| SndBuffers.SndBuffer.ReadNew | fusionFS/src/udt/src/buffer.cpp:217-230 | the next packet never read, which is then marked as read; nothing when all were |
| SndBuffers.SndBuffer.ReadAt | fusionFS/src/udt/src/buffer.cpp:232-266 | the packet at an offset from the first one, unchanged |
| SndBuffers.SndBuffer.AckData | fusionFS/src/udt/src/buffer.cpp:268-278 | exactly the first packets are dropped |
| SndBuffers.SndBuffer.GetCurrBufSize | fusionFS/src/udt/src/buffer.cpp:280-283 | the count is the number of queued packets |
| RcvBuffers.ConsumeReads | fusionFS/src/udt/src/buffer.cpp:391-426 | reading len bytes returns the next bytes of the stream, in order, and leaves the others with the right notch |
| RcvBuffers.RcvBuffer.constructor | fusionFS/src/udt/src/buffer.cpp:346-358 | an empty ring |
| RcvBuffers.RcvBuffer.AddData | fusionFS/src/udt/src/buffer.cpp:374-389 | the unit goes into the free slot of its packet or is refused; no unit sits in two slots; the pool's count follows the occupied slots; unread bytes are untouched |
| RcvBuffers.RcvBuffer.ReadBuffer | fusionFS/src/udt/src/buffer.cpp:391-426 | returns as many bytes as are acknowledged and wanted, from the front, and frees exactly the units read to their end |
| RcvBuffers.RcvBuffer.AckData | fusionFS/src/udt/src/buffer.cpp:467-475 | the packets passed over join the unread bytes, in order |
| RcvBuffers.RcvBuffer.GetAvailBufSize | fusionFS/src/udt/src/buffer.cpp:477-481 | the free slots behind the acknowledged ones, one always kept empty |
| RcvBuffers.RcvBuffer.GetRcvDataSize | fusionFS/src/udt/src/buffer.cpp:483-489 | the number of acknowledged and unread packets, in both layouts of the ring |
| Protocol.SendKeeps | fusionFS/src/udt/src/core.cpp:1015-1122 | a send appends exactly the accepted bytes to the stream and keeps the sender's invariant |
| Protocol.PickKeeps | fusionFS/src/udt/src/core.cpp:2271-2272 | the number picked for retransmission is the smallest lost one, and only the loss set loses it |
| Protocol.TransmitKeeps | fusionFS/src/udt/src/core.cpp:2274-2324 | whatever happened since the number was picked, a packet that goes out is a queued one that is not acknowledged, with its own bytes, and only the current number may change |
| Protocol.AckKeeps | fusionFS/src/udt/src/core.cpp:1983-2024 | an acknowledgement of any packet index keeps the sender's invariant; one that was sent releases exactly up to it; for numbers on the wire see `Senders.AckIsExact` |
| Protocol.LiteAckKeeps | fusionFS/src/udt/src/core.cpp:1959-1969 | a light acknowledgement of a packet index keeps the invariant if and only if that packet was sent |
| Protocol.LossKeeps | fusionFS/src/udt/src/core.cpp:2103-2168 | no list of ranges of packet indices breaks the sender's invariant; for the words of a report see `Nak.ReportIsExact` |
| Protocol.TimeoutKeeps | fusionFS/src/udt/src/core.cpp:2612-2623 | the timeout keeps the loss set within what was sent and not acknowledged |
| Protocol.DataKeeps | fusionFS/src/udt/src/core.cpp:2405-2441 | a data packet keeps the loss set equal to what is missing and what was delivered a prefix |
| Protocol.AckPointIsLeast | fusionFS/src/udt/src/core.cpp:1735-1742 | the number acknowledged is the least one that has not arrived |
| Protocol.AcknowledgeKeeps | fusionFS/src/udt/src/core.cpp:1744-1829 | acknowledging passes only full slots and leaves the right edge of the receive window where it was |
| Protocol.ReadKeeps | fusionFS/src/udt/src/core.cpp:1124-1209 | a read delivers the next bytes and never moves the right edge of the receive window back |
| Effects.SendFits | fusionFS/src/udt/src/core.cpp:1091-1109 | a send never queues beyond the buffer limit, takes all the data when there is room for it, and takes less only by filling the buffer |
| Effects.NumbersCycle | fusionFS/src/udt/src/buffer.cpp:155-164 | message numbers run through 1 to 0x1FFFFFFE in turn and start again |
| Effects.TransmitAnswers | fusionFS/src/udt/src/core.cpp:2271-2324 | a picked packet goes out unless it was acknowledged; a new packet goes out only within the congestion and the flow window, and none goes out only when nothing is queued or one of them is full |
| Effects.AckEffect | fusionFS/src/udt/src/core.cpp:1990-2022 | the exact state after a full acknowledgement: both marks, the window, and the losses before it cleared and no others |
| Effects.LiteAckEffect | fusionFS/src/udt/src/core.cpp:1959-1969 | a light acknowledgement leaves the right edge of the sender's window where it was |
| Effects.LossEffect | fusionFS/src/udt/src/core.cpp:2113-2157 | a report breaks the connection exactly when a range is reversed or names a packet never sent, and adds exactly the unacknowledged numbers before it to whatever was known lost |
| Effects.TimeoutEffect | fusionFS/src/udt/src/core.cpp:2612-2623 | a timeout adds every unacknowledged number when nothing is known lost, and nothing otherwise |
| Effects.DataEffect | fusionFS/src/udt/src/core.cpp:2405-2441 | a packet is accepted exactly when it is new and its slot is free; a report goes out exactly when it makes numbers missing, and names exactly those |
| Effects.AcknowledgeAnswers | fusionFS/src/udt/src/core.cpp:1735-1795 | when a light or a full acknowledgement is sent and what it says |
| Effects.GrantsToEdge | fusionFS/src/udt/src/core.cpp:1798-1803 | number and window of a full acknowledgement together are the right edge of the receive buffer, or the window is 2 and fewer than two slots are free |
| Effects.ReadEffect | fusionFS/src/udt/src/core.cpp:1124-1209 | a read returns as many acknowledged bytes as there are up to the number asked for, from the front |
| Runs.StepKeeps | fusionFS/src/udt/src/core.cpp:2259-2444 | every step of either end, with any message delivered late, twice or never, and with any steps between picking a lost number and sending it, keeps the invariant of both ends and of all messages |
| Runs.StreamIsPrefix | fusionFS/src/udt/src/core.cpp:2259-2444 | in every run the bytes read are a prefix of the bytes accepted, and all of them once every packet was read |
| Runs.GapsAreExact | fusionFS/src/udt/src/core.cpp:1735-1768 | in every run the loss list is exactly the numbers missing up to the largest seen, and an acknowledgement names the least missing one |
| Runs.PayloadsAreStable | fusionFS/src/udt/src/core.cpp:2271-2324 | in every run all transmissions of a number carry the same packet |
| Runs.SpanIsBounded | fusionFS/src/udt/src/core.cpp:1959-2024 | in every run the unacknowledged packets never outnumber the largest window granted, lost ones are among them, and the connection is not declared broken |
| Runs.LossListSuffices | fusionFS/src/udt/src/core.cpp:764-766 | with a receive buffer within the flight size that span fits the loss list made for twice the window |
| Windows.WindowIsKept | fusionFS/src/udt/src/core.cpp:2311-2312 | in every run whose congestion window never exceeds w, never more than w packets are sent and not acknowledged |
| Windows.SlotOrFirstWindow | fusionFS/src/udt/src/core.cpp:1798-1803 | in every run a new packet sent under a window above the floor would be accepted at once, unless it is within a first window as large as the receive buffer |
| Windows.PromiseIsExact | fusionFS/src/udt/src/core.cpp:749-763 | every new packet of every run sent above the floor finds a slot if and only if the first window is smaller than the receive buffer |
| Windows.FirstWindowOvershoots | fusionFS/src/udt/src/core.cpp:749-763 | a run in which the last packet of the first window is refused although nothing was lost |
| Windows.AckIsHeard | fusionFS/src/udt/src/core.cpp:1983-2022 | what an acknowledgement under way does to the sender whenever it arrives |
| Windows.ReportIsHeard | fusionFS/src/udt/src/core.cpp:2103-2157 | a report under way adds exactly its unacknowledged numbers to the loss list whenever it arrives |
| Windows.GapIsHeard | fusionFS/src/udt/src/core.cpp:2413-2424 | every number that a packet makes missing is under way in a report, and is known lost to the sender once that arrives |
| Progress.LiveKeeps | fusionFS/src/udt/src/core.cpp:1793-1822 | every step keeps what rules out a deadlock: a sender without window will hear of a later acknowledgement |
| Progress.NeverStuck | fusionFS/src/udt/src/core.cpp:2579-2635 | from every reachable state, even if every message under way is lost, a continuation delivers everything accepted |
| Progress.WindowIsNeeded | fusionFS/src/udt/src/core.cpp:2311-2312 | with a first window below one no run delivers a byte |
| Senders.Sender.constructor | fusionFS/src/udt/src/core.cpp:757-766 | the sender after the handshake, its loss list made for twice the window |
| Senders.Sender.Send | fusionFS/src/udt/src/core.cpp:1091-1115 | queues as many bytes as the buffer limit allows and says how many |
| Senders.Sender.PackData | fusionFS/src/udt/src/core.cpp:2271-2324 | takes the two protocol steps, one for each of its sections, when nothing comes between them; `Effects.TransmitAnswers` says when and what they send |
| Senders.Sender.PickLost | fusionFS/src/udt/src/core.cpp:2272 | takes the smallest number from the loss list, -1 when there is none |
| Senders.Sender.SendPicked | fusionFS/src/udt/src/core.cpp:2274-2324 | sends the packet picked earlier unless it was acknowledged in the meantime, or a new one when the congestion and the flow window allow it (`Effects.TransmitAnswers`) |
| Senders.Sender.ProcessAck | fusionFS/src/udt/src/core.cpp:1983-2024 | for any number on the wire that is sound, takes the protocol step for the index the code takes it for, on buffer and loss list |
| Senders.AckIsExact | fusionFS/src/udt/src/core.cpp:1990-2022 | for every number on the ring: what the code remembers and releases was sent if and only if the number is sound |
| Senders.AckOfIndex | fusionFS/src/udt/src/core.cpp:1983-2024 | a number near the sender's own is sound and has the effect of its index |
| Senders.AckReachesAhead | fusionFS/src/udt/src/core.cpp:1990-2014 | a state with one packet in flight and a number half a ring away for which 0x40000000 packets would be released |
| Senders.Sender.ProcessLiteAck | fusionFS/src/udt/src/core.cpp:1959-1969 | for any number on the wire that was sent or is ignored, takes the protocol step |
| Senders.Sender.CheckTimers | fusionFS/src/udt/src/core.cpp:2612-2623 | takes the protocol step for the retransmission timeout |
| Senders.Sender.ProcessNak | fusionFS/src/udt/src/core.cpp:2103-2157 | for any words that are sound entries, takes them in order up to the first bad one, which breaks the connection; what that adds to the loss list is `Effects.LossEffect` |
| Receivers.Receiver.constructor | fusionFS/src/udt/src/core.cpp:751-767 | the receiver after the handshake |
| Receivers.Receiver.ProcessData | fusionFS/src/udt/src/core.cpp:2405-2444 | for a packet with any number on the wire takes the protocol step, with the report that `Effects.DataEffect` asks for; a late accepted packet is always found in the loss list |
| Receivers.DataOfIndex | fusionFS/src/udt/src/core.cpp:2405-2411 | a packet up to almost a whole turn of the ring old is taken for itself or refused as it would be by its index |
| Receivers.Receiver.ReportGap | fusionFS/src/udt/src/core.cpp:2413-2424 | the packets skipped are inserted and the immediate report of one or two words encodes exactly them |
| Receivers.Receiver.SendAck | fusionFS/src/udt/src/core.cpp:1733-1829 | takes the protocol step for light and full acknowledgements, with the window that `Effects.GrantsToEdge` describes |
| Receivers.Receiver.ProcessAck2 | fusionFS/src/udt/src/core.cpp:2077-2101 | remembers the largest acknowledgement the sender confirmed |
| Receivers.Receiver.Recv | fusionFS/src/udt/src/core.cpp:1124-1209 | returns the bytes the protocol step delivers |
| Endpoints.Connection.Do | fusionFS/src/udt/src/core.cpp:1015-2631 | for every timely event the handler that belongs to it takes the step of the run, on the objects of both ends |
| Endpoints.Connection.DoTransmit | fusionFS/src/udt/src/core.cpp:2271-2324 | what goes out is the wire form of a message of the run, with the bytes queued for it |
| Endpoints.Drive | fusionFS/src/udt/src/core.cpp:1015-2631 | along any timely run the bytes `recv` returned are a prefix of the bytes `send` took, and all of them once every packet was read |
| SendHeaps.InsertedConserves | fusionFS/src/udt/src/queue.cpp:355-384 | insertion adds exactly the new entry |
| SendHeaps.RemovedConserves | fusionFS/src/udt/src/queue.cpp:403-437 | removal takes away exactly the entry of the node |
| SendHeaps.InsertedOrders | fusionFS/src/udt/src/queue.cpp:355-384 | insertion keeps min-heap order |
| SendHeaps.RemovedOrders | fusionFS/src/udt/src/queue.cpp:403-437 | removal keeps min-heap order if and only if the hole is first or last or the moved entry is not before the hole's parent |
| SendHeaps.RemovedMayBreak | fusionFS/src/udt/src/queue.cpp:409-434 | five sockets served and a sixth request make a heap of six entries that a removal breaks |
| SendHeaps.HeapsAreReachable | fusionFS/src/udt/src/queue.cpp:355-366 | inserting the entries of any heap in array order makes exactly that heap |
| SendHeaps.ServedLeaves | fusionFS/src/udt/src/queue.cpp:282-336 | a request for immediate service that is served at once leaves a heap with strict order as it was |
| SendHeaps.HeapsAreServed | fusionFS/src/udt/src/queue.cpp:282-336 | requesting service for the entries of any such heap in order, each served and put back with its next time, makes that heap |
| SendHeaps.UpdatedOrders | fusionFS/src/udt/src/queue.cpp:282-304 | a request for immediate service keeps order if and only if the socket is first or unscheduled, nothing is rescheduled, its removal keeps order, or the new entry passes beside the hole and repairs it |
| SendHeaps.UpdatedEffect | fusionFS/src/udt/src/queue.cpp:282-304 | after a request for service the socket's one entry is due at 1 and every other entry is what it was; without rescheduling a scheduled socket's schedule does not change |
| SendHeaps.LeftGoesFirst | fusionFS/src/udt/src/queue.cpp:416-434 | of two children due at the same time the left one moves up |
| SendHeaps.PassingBeside | fusionFS/src/udt/src/queue.cpp:367-382 | an entry sifting up beside one out of order repairs it exactly when the grandparent, which takes the parent's place, is not later |
| SendHeaps.PassingThrough | fusionFS/src/udt/src/queue.cpp:367-382 | an entry sifting up through the place of one out of order never repairs it |
| SendHeaps.FirstIsEarliest | fusionFS/src/udt/src/queue.cpp:345-353 | in a heap the first entry is due no later than any other |
| SendHeaps.CSndUList.constructor | fusionFS/src/udt/src/queue.cpp:226-242 | an empty heap over 4096 places |
| SendHeaps.CSndUList.Open | fusionFS/src/udt/src/core.cpp:508-512 | a new socket's node is off the heap and holds -1 |
| SendHeaps.CSndUList.Insert | fusionFS/src/udt/src/queue.cpp:255-280 | a full array is doubled; the node is inserted unless it is scheduled; every back pointer is right |
| SendHeaps.CSndUList.InsertNode | fusionFS/src/udt/src/queue.cpp:355-400 | the sifting loop computes the specified insertion in place with every back pointer right |
| SendHeaps.CSndUList.RemoveNode | fusionFS/src/udt/src/queue.cpp:403-442 | the sifting loop computes the specified removal in place; the node holds -1 again |
| SendHeaps.CSndUList.Update | fusionFS/src/udt/src/queue.cpp:282-304 | the three cases of a request for immediate service |
| SendHeaps.CSndUList.RoomIsExact | fusionFS/src/udt/src/queue.cpp:355-366 | the array has a free place if and only if fewer sockets are scheduled than it has places |
| SendHeaps.CSndUList.RoomForOpen | fusionFS/src/udt/src/queue.cpp:282-304 | while no more sockets are open than the array has places there is room for one that is not scheduled |
| SendHeaps.Overfull | fusionFS/src/udt/src/queue.cpp:226-304 | a valid list with all 4096 places taken and an open socket that is not scheduled, reached by opening and scheduling sockets |
| SendHeaps.CSndUList.Pop | fusionFS/src/udt/src/queue.cpp:306-336 | takes the first socket only when due and puts it back only with a next time |
| AckWindows.MostRecentAreKept | fusionFS/src/udt/src/window.cpp:70-81 | after any number of stores the window holds the most recent ones, at most its size less one, oldest first |
| AckWindows.AcknowledgedIsSuffix | fusionFS/src/udt/src/window.cpp:83-143 | an acknowledgement removes the oldest record of its number and all records before it, none of which has that number; an unknown number removes nothing |
| AckWindows.StoredNumbered | fusionFS/src/udt/src/window.cpp:70-81 | records stored with growing numbers are kept in increasing order |
| AckWindows.AcknowledgedOnce | fusionFS/src/udt/src/window.cpp:83-143 | of such records exactly those with larger numbers remain, so each is acknowledged at most once and none after a later one |
| AckWindows.AckWindow.constructor | fusionFS/src/udt/src/window.cpp:48-61 | an empty window |
| AckWindows.AckWindow.Store | fusionFS/src/udt/src/window.cpp:70-81 | appends a record and drops the oldest when full |
| AckWindows.AckWindow.Acknowledge | fusionFS/src/udt/src/window.cpp:83-143 | both branches return the data acknowledged and the age of the oldest match and discard it with everything older, or return -1 and change nothing |
| AckWindows.AckWindow.DiscardWrapped | fusionFS/src/udt/src/window.cpp:129-135 | the wrapped branch discards the same records although its reset never happens |
| Md5s.PaddingIsRight | fusionFS/src/udt/src/md5.cpp:363-376 | the padding is a 1 bit and the fewest 0 bits that leave eight bytes in the last block, as section 3.1 of RFC 1321 says |
| Md5s.PaddingIsUnique | fusionFS/src/udt/src/md5.cpp:363-376 | a length has only one such padding |
| Md5s.PaddingFromCount | fusionFS/src/udt/src/md5.cpp:376 | the length of the padding can be taken from the low 32 bits of the bit count |
| Md5s.CountCarries | fusionFS/src/udt/src/md5.cpp:328-336 | the two 32-bit words with carry are the bit count modulo 2^64 |
| Md5s.BytesValue | fusionFS/src/udt/src/md5.cpp:371-380 | the four bytes of a word have its value, low-order byte first |
| Md5s.LengthValue | fusionFS/src/udt/src/md5.cpp:371-373 | the eight length bytes have the length in bits modulo 2^64 for their value, low-order byte first |
| Md5s.InitBytes | fusionFS/src/udt/src/md5.cpp:312-320 | the initial registers are the bytes that section 3.3 of RFC 1321 lists |
| Md5s.FoldBlocks | fusionFS/src/udt/src/md5.cpp:347-353 | blocks are processed in order from the initial registers |
| Md5s.DigestIsRight | fusionFS/src/udt/src/md5.cpp:360-381 | for any padding as section 3.1 describes it and any eight bytes with the length as value, the sixteen digest bytes have the values of the four registers in order, low-order byte first |
| Md5s.Md5State.constructor | fusionFS/src/udt/src/md5.cpp:312-320 | the initial registers of section 3.3 of RFC 1321, nothing counted or buffered |
| Md5s.Md5State.Append | fusionFS/src/udt/src/md5.cpp:322-358 | whatever was appended before, the state then stands for the longer message: its whole blocks folded, the rest buffered, the bits counted |
| Md5s.Md5State.Finish | fusionFS/src/udt/src/md5.cpp:360-381 | the digest is that of the whole message with its padding and length, however it was split into chunks; `DigestIsRight` says it by values |
| Md5s.Compute | fusionFS/src/udt/src/common.cpp:742-749 | the digest of a message in one go, as `DigestIsRight` describes it |
| NoVoHTLog.RecordsOfFlat | fusionFS/src/zht/src/common/novoht.cpp:258-271 | reading back a file of well-formed records gives exactly the records |
| NoVoHTLog.CrossOut | fusionFS/src/zht/src/common/novoht.cpp:249-257 | a '~' at the place of a record crosses out that record and no other |
| NoVoHTLog.CrossOutMovesNothing | fusionFS/src/zht/src/common/novoht.cpp:249-257 | crossing out moves no record, so stored positions stay right |
| NoVoHTLog.LoadLive | fusionFS/src/zht/src/common/novoht.cpp:273-286 | records with distinct keys that are not crossed out rebuild the map of exactly those keys |
| NoVoHTLog.SurvivesExactlyIfStorable | fusionFS/src/zht/src/common/novoht.cpp:189-208 | a pair written by compaction is read back if and only if it is storable |
| NoVoHTLog.StorableIs | fusionFS/src/zht/src/common/novoht.cpp:189-208 | storable pairs, character by character |
| NoVoHTLog.TextIs | fusionFS/src/zht/src/common/novoht.cpp:234-247 | a written pair is key, tab, value, tab |
| NoVoHTLog.FormatIs | fusionFS/src/zht/src/common/novoht.cpp:258-286 | such text is read back as its records, of which one with a '~' in front does not count |
| NoVoHTs.MatchingImage | fusionFS/src/zht/src/common/novoht.cpp:258-286 | a log that matches a map rebuilds that map |
| NoVoHTs.MatchingReplace | fusionFS/src/zht/src/common/novoht.cpp:119-134 | crossing out the old record and appending a new one makes the log match the map with the new value |
| NoVoHTs.NoVoHT.FileIsContents | fusionFS/src/zht/src/common/novoht.cpp:97-271 | the file of a faithful table parses to exactly the table's map |
| NoVoHTs.Replay | fusionFS/src/zht/src/common/novoht.cpp:97-271 | after any run of puts of storable pairs and removals, with growth and compaction on the way, the table and the map its file parses to are both the map the run stands for |
| NoVoHTs.NoVoHT.constructor | fusionFS/src/zht/src/common/novoht.cpp:58-76 | an empty table on an empty file, faithful and rightly counted |
| NoVoHTs.NoVoHT.Put | fusionFS/src/zht/src/common/novoht.cpp:97-140 | the map gains the pair, for any strings and any hash; the file follows when the pair is storable; size and count as the code leaves them; after a growing put the count is right exactly when the table was empty, after any other exactly when it was right |
| NoVoHTs.CountIsLost | fusionFS/src/zht/src/common/novoht.cpp:97-140 | two puts into a table of one bucket leave two keys and a count of 1 |
| NoVoHTs.NoVoHT.Get | fusionFS/src/zht/src/common/novoht.cpp:142-151 | the value of the key, and nothing for the empty key |
| NoVoHTs.NoVoHT.InItsBucket | fusionFS/src/zht/src/common/novoht.cpp:97-151 | every key is in the bucket of its hash modulo the size, reached from the table's slot |
| NoVoHTs.NoVoHT.Remove | fusionFS/src/zht/src/common/novoht.cpp:154-185 | the map loses exactly the key, -1 when it was not there; the file follows; every magicNumber removals it is compacted; the count stays right or wrong |
| NoVoHTs.NoVoHT.WriteFile | fusionFS/src/zht/src/common/novoht.cpp:189-208 | compaction keeps the map of the file and leaves only live records, every node knowing its place |
| NoVoHTs.NoVoHT.Resize | fusionFS/src/zht/src/common/novoht.cpp:212-232 | relinking the chains in place keeps every node, once, in the bucket of its key |
| LruCaches.EvictedIsLongest | fusionFS/src/zht/inc/lru_cache.h:229-235 | eviction keeps the longest prefix of the recency list that fits |
| LruCaches.DropEffect | fusionFS/src/zht/inc/lru_cache.h:147-154 | removal takes the key's entry out and keeps the others in their order |
| LruCaches.FetchEffect | fusionFS/src/zht/inc/lru_cache.h:159-191 | a fetch that touches puts the stored key in front and keeps the others in their order; one that does not changes nothing |
| LruCaches.InsertEffect | fusionFS/src/zht/inc/lru_cache.h:214-236 | data that fits goes in front, the others keep their order but for the oldest that no longer fit; data that does not fit leaves nothing |
| LruCaches.SmallerIsIncluded | fusionFS/src/zht/inc/lru_cache.h:147-236 | when all sizes other than zero are equal, the smaller of two caches holds a subsequence of the larger one's list after any trace, with equal data |
| LruCaches.IncludedExactlyIfEven | fusionFS/src/zht/inc/lru_cache.h:147-236 | over three keys, inclusion holds for all capacities and traces if and only if all sizes other than zero are equal |
| LruCaches.HitsAreKept | fusionFS/src/zht/inc/lru_cache.h:182-236 | under the same condition a hit of the smaller cache is a hit of the larger one with the same data |
| LruCaches.SizedMayDiffer | fusionFS/src/zht/inc/lru_cache.h:214-236 | for any two different sizes other than zero, any three keys and the capacities 2x and x + y, four operations leave in the smaller cache a key that the larger one evicted |
| LruCaches.LRUCache.constructor | fusionFS/src/zht/inc/lru_cache.h:106-109 | an empty cache |
| LruCaches.LRUCache.Exists | fusionFS/src/zht/inc/lru_cache.h:136-141 | whether the key is stored |
| LruCaches.LRUCache.Remove | fusionFS/src/zht/inc/lru_cache.h:147-154 | exactly the key's entry is removed and its size given back |
| LruCaches.LRUCache.Touch | fusionFS/src/zht/inc/lru_cache.h:159-162 | the key's entry becomes the most recent, the others keep their order |
| LruCaches.LRUCache.FetchPtr | fusionFS/src/zht/inc/lru_cache.h:169-175 | the key's data; the entry is touched whatever the flag |
| LruCaches.LRUCache.Fetch | fusionFS/src/zht/inc/lru_cache.h:182-191 | a copy of the key's data, or an empty object, touching only on request |
| LruCaches.LRUCache.Insert | fusionFS/src/zht/inc/lru_cache.h:214-236 | the pair goes to the front in place of the key's old entry and the back is evicted to fit; the eviction never runs out of entries |
| LruCaches.LRUCache.InsertReporting | fusionFS/src/zht/inc/lru_cache.h:239-264 | the same, returning the last entry evicted |
| LruCaches.LRUCache.Clear | fusionFS/src/zht/inc/lru_cache.h:125-129 | the cache is empty and its capacity smaller by the size of what was cleared |
| LfuRings.AccessedKeeps | hycache/util.c:201-261 | an access keeps names distinct and records ordered by frequency and, among equals, by last access |
| LfuRings.RemovedKeeps | hycache/util.c:411-437 | removing a name removes exactly its record and keeps the order |
| LfuRings.HeadIsVictim | hycache/util.c:350-373 | after any run of accesses, removals and evictions the head is a file used least, and among those the one used longest ago, as counted over the run itself |
| LfuRings.QueueAfter | hycache/util.c:201-437 | after any run the queue lists exactly the files in use with their counts and last uses, in order |
| LfuRings.Replay | hycache/util.c:201-437 | the ring driven along any run holds the queue of that run, and its head is the victim by the record of the run |
| LfuRings.InsQue | hycache/util.c:221-260 | inserting behind a node of a doubly linked cycle gives the cycle with the node there |
| LfuRings.RemQue | hycache/util.c:350-437 | unlinking a node of a doubly linked cycle gives the cycle without it |
| LfuRings.LfuQueue.FindElem | hycache/util.c:468-488 | once around the ring finds the record of a name, or that there is none |
| LfuRings.LfuQueue.GetPos | hycache/util.c:272-317 | the node after which a frequency belongs, null for the front |
| LfuRings.LfuQueue.InsQueLfu | hycache/util.c:201-261 | the ring follows the specified access, a known file counting one more |
| LfuRings.LfuQueue.RemQueHead | hycache/util.c:350-373 | the head is removed, head and tail remain the ends of one cycle |
| LfuRings.LfuQueue.RmElem | hycache/util.c:411-437 | the record of the name is removed in each of the three places it can have |

## Left out

- Senders.Sender.ProcessLiteAck: requires that a number the code applies was sent, which the code does not check; Protocol.LiteAckKeeps says exactly what happens otherwise.
- Senders.Sender.ProcessNak: excludes reports with an entry that is not sound, whose numbers do not fit the loss list (Nak.ReportIsExact), and malformed ones, whose last word is flagged, where the code reads past the end, or where a flagged word follows a flagged one, which would be compared as a negative number.
- Senders.Sender.ProcessAck: excludes the numbers that are not sound (Senders.AckIsExact) and a window that does not fit the loss list; Runs.LossListSuffices shows the latter for all runs of an honest receiver.
- Senders.Sender.SendPicked: requires that the number picked is not acknowledged by half the number space when it is sent.
- Receivers.Receiver.SendAck: requires the acknowledged position and the next number to be closer than the comparison threshold to the last confirmed acknowledgement; no packet lifetime implies it, as it fails in a run where about 2^30 packets arrive and no ACK2 is heard, and what the code then sends is not modelled.
- Receivers.Receiver.ProcessAck2: requires the number confirmed within one comparison window of the largest one confirmed before.
- RcvLossLists.RcvLossList.Remove: requires the number to fit one turn of the ring together with the missing ones, which the size of the list gives for the numbers its caller passes.
- RcvLossLists.RcvLossList.Find: requires the queried range to fit one turn of the ring together with the missing numbers.
- SndLossLists.SndLossList.Insert: requires the lost numbers to span less than the array, which the code leaves to its callers; Runs.SpanIsBounded gives it.
- RcvBuffers.RcvBuffer.AddData: requires an offset inside the free slots, as the caller in `processData` checks.
- SendHeaps.CSndUList.Update: requires room in the array for an unscheduled socket, because this path of the code does not enlarge it; RoomIsExact and RoomForOpen say when there is room, Overfull that there need not be, and the write behind the array itself is not modelled.
- NoVoHTLog.SurvivesExactlyIfStorable: a field of 300 or more characters, which overruns the reader's buffer, counts as unreadable.
- LfuRings.LfuQueue.RemQueHead: requires a non-empty queue, because the code follows a null head otherwise.
- NoVoHTs.NoVoHT.WriteFile: says nothing of the file when an unstorable pair was put before.
- Runs.StreamIsPrefix: is about honest ends; acknowledgements, reports and ACK2 messages are those that the other end sent.
- Endpoints.Drive: asks every event to be timely; the state objects of a run that is not are not followed.
- Message mode, expiry and drop requests, and `CRcvLossList::remove` of a range, which only they use.
- File streams (`addBufferFromFile`, `readBufferToFile`, `sendfile`, `recvfile`); the first counts blocks it did not fill after a short read.
- `CUnitQueue::getNextAvailUnit`: a free unit is a parameter of `ProcessData`.
- `CCache`, whose eviction assigns one bucket over another.
- Congestion control, rate pacing, RTT and timers: the congestion window is a parameter and a timeout may happen at any time.
- Which acknowledgements the sender confirms by an ACK2 is left open; the receiver's lookup of its number in the history is passed as a parameter, with the history itself modelled in `AckWindow`.
- Blocking and timeouts of `send` and `recv`, sockets, handshake, rendezvous, epoll, threads and locks: handling one message, one timer or one call is one step, and `packData` is two, with any steps between them.
- The header's flag bits are fields of a datatype, and a block's region of its segment is a sequence of its own.
- The compression function of MD5 and the hash of NoVoHT are arbitrary functions.
- The overflow of `offset + nbytes` for chunks within 64 bytes of 2^31 in `md5_append`, and 32-bit overflow of table and heap sizes.
- Recovery of NoVoHT through `readFile` into a live table, whose puts move the file position while it reads; the model parses the file as a value. A field of 300 or more characters overruns the reader's buffer and counts as unreadable.
- File errors, spin flags, the default constructor of NoVoHT and the rounding of its growth test, which is done in reals.
- A list iterator of the LRU cache is the entry it points to, which its key determines.
- HyCache's moves between devices, rename, sizes and its LRU queue, which repeats the LFU one without frequencies.
- Generated protocol buffers, ZHT client and server, file transfer, FUSE callbacks, logs and benchmarks.
