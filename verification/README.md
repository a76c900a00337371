# Verified models of the Open Peer core algorithms

A Dafny 4.11 project that models the algorithms of this repository and proves what they keep,
what they compute, and exactly when they do what their documentation promises. Verify it with
`dafny verify dfyconfig.toml`.

It covers the JavaScript library under `javascript/phonenumbernormalizer/js` and the reliable
channel over UDP of `openpeer/services`:

- **RUDP** (`Rudp*.dfy`). The wire format, the run-length encoded acknowledgement vectors, the
  restoration of 64-bit sequence numbers, the channel stream with its acknowledgement handling,
  and the bookkeeping of bursts. Two honest streams and a network that loses, duplicates, delays and
  reorders are a transition system; the safety of acknowledgements (`RudpRuns`), the part the random
  parity bits play (`RudpChoices`, `RudpBursts`), the data delivered (`RudpDelivery`) and the
  restoration of truncated numbers (`RudpHints`) are proved over every run, together with what
  every acknowledgement and packet achieves, and that every quiet run can still be completed
  (`RudpProgress`). The streams also exist as a class whose loops over buffers and vectors end in the
  states the transition system uses.
- **Protocol-buffer messages** (`ProtoMessages`, `MergeHistories`, `MessageEquality`,
  `MessageHistories`, `PbLite`, `MessageStores`, `MessageAnswers`, `LazyMerges`, `SelfMerges`,
  `Messages`, `MessageTrees`, `ObjectSerializers`). The algebra of merging, cloning and comparing; what
  the accessors answer, told from the history of calls; the PB-Lite and object-serializer wire forms
  and round trips; the memo of lazily deserialized messages as a transparent cache; merges into
  messages that share raw arrays or are their own source; and messages as objects that own their
  sub-messages and are merged in place.
- **The script loader and the namespace registry** of `base.js` (`ScriptLoader`, `LoaderRuns`,
  `LoaderRegistrations`, `LoaderFailures`, `Namespaces`), over whole sequences of `goog.addDependency`,
  `goog.require` and `goog.provide` calls.
- **The JSON printer** (`JsonTexts`, `JsonSerializer`) against a reference parser for sections 2 to 7
  of RFC 8259 (`JsonGrammar`, `JsonRoundTrip`), and the shape of what it writes (`JsonShapes`).
- **Array, sequence and tree algorithms** (`SortedArrays`, `StableSorts`, `Shuffles`,
  `CommonSubsequences`, `DomWalks`).

The pattern is the same throughout: methods with the loops and the mutable fields of the source
are tied to functions that say what they compute, and the promises are proved about those functions.
A method that shares the name of its function has a trailing underscore.

## Where the code does not keep its promises

Each of these is proved, together with the condition under which the promise holds.

- A burst goes on with the vector of its first packet. Once GSNFR has moved while something beyond it
  has arrived, the next packet of the burst makes its honest peer close the stream for one of the two
  values of a single parity bit; exactly then is a packet unsafe
  (`RudpBursts.NextPacketIsSafeExactlyWhen`). For the other value the peer may take as received a
  packet that never arrived (`RudpBursts.InterruptedBurst`). Runs without such packets are safe
  (`RudpRuns.QuietRunsAreSafe`).
- A packet with both the EQ flag and a vector is parsed with its data shifted
  (`RudpPackets.PacketReadsBackExactlyWhen`), and a stream makes such packets when GSNFR catches up
  with GSNR in the midst of a burst (`RudpDelivery.SpoiledBurst`). In every run what is delivered is a
  prefix of what was sent exactly when no such packet has been delivered
  (`RudpDelivery.DeliveredPrefixExactlyWhen`).
- The order of imports is kept exactly when no `goog.require` call runs into a name that is not
  registered yet (`LoaderFailures.ScriptsComeInOrderExactlyWhen`): such a call leaves paths marked as
  visited, and no later registration or call makes that good, whatever the imported scripts provide
  when they are executed. Only a name that a script needs and that, after such a call, counts as
  provided although its own script was not imported can do so
  (`LoaderFailures.BootstrappingMakesGood`).
- A call that comes to its end has imported the script asked for exactly when the path of that script
  was no key of `deps.written`, or its address was one already
  (`LoaderFailures.RequiredIsImportedExactlyWhen`). Otherwise no later call imports it either
  (`LoaderFailures.CollisionIsNeverImported`).
- A 64-bit sequence number is restored from its low 24 bits exactly when it is in reach of the hint
  (`RudpNumbers.RestoredExactlyWhen`). Runs whose packets are timely in that sense take the same
  course as with full numbers (`RudpHints.TimelyRunsAlike`).
- `binarySearch_` gives the right answer on all arrays of a length exactly up to 2^30; on every
  longer one it misses an insertion point at the end (`SortedArrays.SearchIsRightExactlyUpToLimit`).
- Adding `true` to a repeated boolean field of a lazily deserialized message stores `false`
  (`MessageStores.AddsAlikeExactlyWhen`).
- A second merge into a sub-message that is still serialized deserializes it anew, from what the
  first merge left in the raw array (`LazyMerges.SecondMergeStartsFromWhatIsLeft`). Without zero
  indexing the array is shared and only `true` in boolean fields is lost. With zero indexing a copy is
  used, and only what went into lists, arrays and messages that were there already is kept
  (`LazyMerges.FirstMergeCountsExactlyWhen`).
- A clone differs from a message with a present but empty repeated field
  (`MessageEquality.CloneEqualsExactlyWhen`).
- Merging an eager message into itself never ends exactly when a list reached without going through
  a list has an item (`SelfMerges.SelfMergeEndsExactlyWhen`).
- The object serializer loses present but empty repeated fields, at every depth
  (`ObjectSerializers.ObjectRoundTripExactlyWhen`).
- A function inside an array, or at the top, is printed as nothing, so the text is not JSON or means
  something else (`JsonRoundTrip.ReadsBackExactlyWhen`).
- `longestCommonSubsequence` is optimal for every comparison exactly when the first array is at least
  as long as the second or has at most one element (`CommonSubsequences.LongestExactlyWhen`).
- A name with an empty part counts as provided without having been provided exactly when its object
  was made by a name it does not lie above (`Namespaces.WronglyProvidedExactlyWhen`); names without
  empty parts never do, whatever names are provided.

Where documentation and code disagree the models follow the code: `RUDPProtocol.h` gives the vector
length in DWORDs, `services_RUDPPacket.cpp` counts bytes (7 bits); the slash has an entry in the
JSON escape cache but is never escaped.

## Model

| member | source | states |
|---|---|---|
| RudpRuns.QuietRunsAreSafe | openpeer/services/RUDPProtocol.h:155-211 | in every run whose bursts make no packet after GSNFR moved while something beyond it has arrived, under loss, duplication, reordering and delay: no honest stream is closed for a wrong parity, whatever a sender treats as acknowledged was received, GSNFR is the greatest fully received number and GSNR the greatest received one |
| RudpRuns.StepKeepsInv | openpeer/services/cpp/services_RUDPChannelStream.cpp:437-693 | every quiet step of either end keeps the invariant that all acknowledgements on the network, late ones included, match the parity bits chosen and the packets received |
| RudpRuns.RunKeepsInv | openpeer/services/cpp/services_RUDPChannelStream.cpp:437-693 | the same invariant after any number of quiet steps |
| RudpRuns.RunsAdvance | openpeer/services/RUDPProtocol.h:207-211 | in every run, quiet or not, acknowledgements are never withdrawn, received packets never forgotten, and GSNR and GSNFR only grow |
| RudpRuns.StepAdvances | openpeer/services/cpp/services_RUDPChannelStream.cpp:437-693 | one step of either end, whatever it is sent, withdraws nothing |
| RudpBursts.NextPacketIsSafeExactlyWhen | openpeer/services/cpp/services_RUDPChannelStream.cpp:1207-1279 | after every quiet run: the next packet of a burst closes its honest peer on no course that other parity bits would have taken, exactly when GSNFR has not moved since the burst began, or nothing beyond it has arrived, or the packet is too far ahead to be looked at |
| RudpBursts.UnquietBurstCloses | openpeer/services/cpp/services_RUDPChannelStream.cpp:1207-1279 | every quiet run that comes to such a packet has, with the bits it chose or with one of them flipped, a course on which the peer closes |
| RudpBursts.OneOfTwoCloses | openpeer/services/cpp/services_RUDPChannelStream.cpp:1709-1822 | of the two values of the bit of the first packet the burst reports missing exactly one makes the peer close |
| RudpBursts.InterruptedBurst | openpeer/services/cpp/services_RUDPChannelStream.cpp:1207-1279 | a run of five packets comes to such a packet: depending on two parity bits the peer closes, or takes packet 4, which never arrived, as acknowledged |
| RudpChoices.RunAlike | openpeer/services/RUDPProtocol.h:132-137 | for every quiet run and every choice of parity bits there is a quiet run that makes this choice and takes otherwise the same course |
| RudpChoices.PacketAlike | openpeer/services/cpp/services_RUDPChannelStream.cpp:437-552 | no parity bit decides what an honest stream does with an honest packet |
| RudpDelivery.DeliveredPrefixExactlyWhen | openpeer/services/cpp/services_RUDPChannelStream.cpp:1936-1980 | in every run, quiet or not, and whatever is sent: what an end has delivered is a prefix of what the other end sent exactly when it has delivered no packet that was spoiled when it was sent, and then it is the data of exactly the packets up to its GSNFR in order |
| RudpDelivery.RunKeepsTexts | openpeer/services/cpp/services_RUDPChannelStream.cpp:437-552 | every run keeps the data of buffered, travelling and delivered packets as it arrives, which is as it was sent exactly for the packets that were not spoiled |
| RudpDelivery.JoinedSameExactlyWhen | openpeer/services/cpp/services_RUDPChannelStream.cpp:1936-1980 | data of the same lengths is the same when joined exactly when no spoiled packet is among it |
| RudpDelivery.DeliveredIsWhatWasSent | openpeer/services/cpp/services_RUDPChannelStream.cpp:1936-1980 | in particular, in every run whose packets carry no copied vector under the EQ flag each end has delivered a prefix of what was sent |
| RudpDelivery.DataArrivesExactlyWhen | openpeer/services/cpp/services_RUDPChannelStream.cpp:1271-1286 | the data of a new packet arrives as it was sent exactly when it has not both the EQ flag and a copied vector, or is all zeros |
| RudpDelivery.AnyDataArrivesExactlyWhen | openpeer/services/cpp/services_RUDPChannelStream.cpp:1271-1286 | the same for whatever data comes next |
| RudpDelivery.SpoiledOnlyWhenCaughtUp | openpeer/services/cpp/services_RUDPChannelStream.cpp:1271-1286 | that happens only when GSNFR caught up with GSNR in the midst of a burst |
| RudpDelivery.SpoiledBurst | openpeer/services/cpp/services_RUDPChannelStream.cpp:1271-1286 | a run comes to a packet whose data arrives four bytes late |
| RudpDelivery.NewPacketIsParsed | openpeer/services/cpp/services_RUDPPacket.cpp:157-252 | the packets of the runs are what parseIfRUDP makes of the bytes packetize writes for them |
| RudpProgress.EverythingCanArrive | openpeer/services/cpp/services_RUDPChannelStream.cpp:437-693 | after any quiet run, whatever was lost and even if delivery has been stalled for long, arrivals of packets already sent and acknowledgements alone can lead to a state in which everything sent was delivered in both directions and both buffers are empty |
| RudpProgress.AllDataCanArrive | openpeer/services/cpp/services_RUDPChannelStream.cpp:1936-1980 | if no packet was spoiled, all the data that was sent can still be delivered, in order |
| RudpProgress.AckTakesEffect | openpeer/services/cpp/services_RUDPChannelStream.cpp:1581-1833 | any acknowledgement, honest or not: when it is heeded and contradicts no parity bit, exactly the packets up to its GSNFR leave the buffer, and of the others exactly those are marked in addition that its vector reports or its GSNR names; otherwise the buffer stays as it is, and nothing else of the stream changes |
| RudpProgress.AckClosesExactlyWhen | openpeer/services/cpp/services_RUDPChannelStream.cpp:1612-1822 | any acknowledgement closes the stream exactly when its two numbers are the wrong way round, or it is heeded and contradicts a parity bit of a buffered packet or the parity of what its vector reports |
| RudpProgress.HonestAckAcknowledges | openpeer/services/cpp/services_RUDPChannelStream.cpp:1684-1794 | after an honest acknowledgement that is heeded, a packet is acknowledged exactly when it was before, is not beyond GSNFR, is the one GSNR names or one the vector reports; exactly the packets up to GSNFR leave the buffer |
| RudpProgress.AckReportsExactly | openpeer/services/cpp/services_RUDPChannelStream.cpp:696-776 | with room for a byte for every packet of the gap, an acknowledgement reports exactly what was received |
| RudpProgress.AckReportsEcn | openpeer/services/cpp/services_RUDPChannelStream.cpp:714-752 | a packet received with the EC flag is reported as marked, any other one as received |
| RudpProgress.AckTransfersKnowledge | openpeer/services/cpp/services_RUDPChannelStream.cpp:1581-1833 | after such an acknowledgement the sender treats as acknowledged exactly what the receiver has received |
| RudpProgress.PacketTakesEffect | openpeer/services/cpp/services_RUDPChannelStream.cpp:437-552 | any packet that reaches an open stream: outside the window nothing changes; inside, its acknowledgement is handled, and unless that closes the stream the packet is taken exactly when it is not there yet and not beyond both ends of the window after delivery has stalled; then GSNFR moves to the first gap and the data up to there is delivered in order |
| RudpProgress.HonestPacketIsTakenExactlyWhen | openpeer/services/cpp/services_RUDPChannelStream.cpp:465-552 | the same for an honest packet, which never closes the stream: the packet after GSNFR is always taken and delivered |
| RudpRuns.SendKeepsInv | openpeer/services/cpp/services_RUDPChannelStream.cpp:1199-1344 | sending a new packet of a quiet burst, under the EQ flag or with a vector that fits, keeps the invariant in both directions |
| RudpRuns.ReceiveKeepsInv | openpeer/services/cpp/services_RUDPChannelStream.cpp:437-576 | receiving any packet ever sent keeps the invariant in both directions |
| RudpRuns.TakeAckKeepsInv | openpeer/services/cpp/services_RUDPChannelStream.cpp:590-693 | taking any external ACK ever given keeps the invariant |
| RudpRuns.GiveAckKeepsInv | openpeer/services/cpp/services_RUDPChannelStream.cpp:696-776 | an external ACK made from the current state, with any room for its vector, keeps the invariant |
| RudpSystem.HonestAck | openpeer/services/cpp/services_RUDPChannelStream.cpp:1581-1833 | an honest acknowledgement, however old, never closes the sender and marks only received packets |
| RudpSystem.HonestVectorStaysOpen | openpeer/services/cpp/services_RUDPChannelStream.cpp:1709-1822 | the vector parity an honest receiver gives equals what the sender recomputes, unless the check cannot be made |
| RudpSystem.VectorParityAgrees | openpeer/services/RUDPProtocol.h:104-105 | the parity over the buffered packets reported received is the parity of the bits chosen for them |
| RudpSystem.FreshVectorOk | openpeer/services/cpp/services_RUDPChannelStream.cpp:714-752 | the vector and parity made from the received packets report only received packets and their parity, for every vector size |
| RudpSystem.VectorMakesAck | openpeer/services/cpp/services_RUDPPacket.cpp:503-525 | a vector that is truthful about GSNFR makes a truthful acknowledgement, also when it is left out |
| RudpSystem.AcceptedOk | openpeer/services/cpp/services_RUDPChannelStream.cpp:536-552 | accepting a packet and delivering what is next keeps the receiver's view of what arrived and its parity |
| RudpSystem.SentOk | openpeer/services/cpp/services_RUDPChannelStream.cpp:1310-1338 | a new packet extends the sender's buffer and parity to date consistently |
| RudpVectors.VectorRoundTrip | openpeer/services/RUDPProtocol.h:213-237 | every gap that fits the vector is read back exactly, even when the vector is left out, and the vector parity is that of the received packets |
| RudpVectors.EncodedAllDecodes | openpeer/services/cpp/services_RUDPPacket.cpp:393-444 | for every size limit, what is decoded is exactly the prefix the encoder took, and the parity is of exactly that prefix |
| RudpVectors.PaddingIsSilent | openpeer/services/RUDPProtocol.h:231-237 | zero bytes after a vector are never read as packets |
| RudpVectors.PackingIsBijective | openpeer/services/RUDPPacket.h:71-79 | every byte is exactly one state and run length |
| RudpVectors.MissingRunSurvivesTruncation | openpeer/services/cpp/services_RUDPPacket.cpp:516-524 | the run implied by a missing vector is the same from the 24-bit numbers as from the full ones |
| RudpVectors.VectorEncoder.Add | openpeer/services/cpp/services_RUDPPacket.cpp:393-444 | writes one state into the byte buffer in place, refuses at GSNR or when full |
| RudpVectors.VectorEncoder.Finalize | openpeer/services/cpp/services_RUDPPacket.cpp:460-493 | the length sent and the vector parity; a vector of missing packets only is left out |
| RudpVectors.VectorDecoder.GetNext | openpeer/services/cpp/services_RUDPPacket.cpp:528-545 | yields the states of the vector one by one, then no more data |
| RudpVectors.VectorDecoder.constructor | openpeer/services/cpp/services_RUDPPacket.cpp:503-525 | starts at the vector, or at the implied run of missing packets |
| RudpNumbers.RestoredExactlyWhen | openpeer/services/cpp/services_RUDPPacket.cpp:74-106 | every 64-bit number is restored from its low 24 bits exactly when it is close enough to the hint; ties, the first block and the wrap after the last one included |
| RudpNumbers.LateComesOutAhead | openpeer/services/cpp/services_RUDPPacket.cpp:74-106 | a number less than a block behind the hint is restored, or taken for one a block ahead |
| RudpHints.RestoredPacketExactlyWhen | openpeer/services/cpp/services_RUDPChannelStream.cpp:460-483 | a packet is taken for what it is exactly when its own number is in reach of GSNR and the acknowledged ones of the next number to send |
| RudpHints.TimelyIsHandledAlike | openpeer/services/cpp/services_RUDPChannelStream.cpp:437-488 | such a packet, and one delivered long ago that is late by less than a block without the window, is handled as if its full numbers had arrived |
| RudpHints.TimelyRunsAlike | openpeer/services/cpp/services_RUDPChannelStream.cpp:437-693 | in every run whose packets are timely in that sense, 24 bits of every number have the same effect as the full numbers |
| RudpHints.TimelyQuietRunsAreSafe | openpeer/services/RUDPProtocol.h:155-211 | the safety of quiet runs, with the numbers as they are on the wire |
| RudpPackets.PacketReadsBackExactlyWhen | openpeer/services/cpp/services_RUDPPacket.cpp:157-252 | every packet packetize accepts is parsed back; its data survives exactly when it has not both EQ and a vector, or is all zeros |
| RudpPackets.ParseReads | openpeer/services/cpp/services_RUDPPacket.cpp:157-252 | exactly what parseIfRUDP makes of every packet that packetize writes |
| RudpPackets.WireLayout | openpeer/services/cpp/services_RUDPPacket.cpp:208-252 | the bytes that packetize writes, in network byte order: channel, length, flags, sequence number, GSNR, without the EQ flag the length of the vector with its parity bit, GSNFR and the vector, and the data at the end |
| RudpPackets.ParsesExactlyWhen | openpeer/services/cpp/services_RUDPPacket.cpp:157-206 | a buffer is taken for a packet exactly when it begins like the bytes of some packet, up to the reserved byte and the padding |
| RudpPackets.TrailingBytesAreIgnored | openpeer/services/cpp/services_RUDPPacket.cpp:185-186 | bytes after a packet do not change what is parsed |
| RudpPackets.Packetize | openpeer/services/cpp/services_RUDPPacket.cpp:208-252 | writes the packet into a zeroed buffer, and fails exactly in the bad states |
| RudpBatons.BooksBalance | openpeer/services/cpp/services_RUDPChannelStream.cpp:2080-2138 | in every run of a new stream the resend counter counts the flagged packets, flagged packets have data, no counter underflows, and at least one baton is free or held |
| RudpBatons.EventKeepsBalance | openpeer/services/cpp/services_RUDPChannelStream.cpp:2094-2138 | every event conserves batons, except the timer that adds one and a loss |
| RudpBatons.LossKeeps | openpeer/services/cpp/services_RUDPChannelStream.cpp:1848-1905 | a loss destroys at most one baton and never the last one |
| RudpBatons.LossDoes | openpeer/services/cpp/services_RUDPChannelStream.cpp:1848-1905 | a loss halves the packets in a burst; once there is only one, it takes away exactly one baton, free or held, unless it is the last one, and changes nothing else |
| RudpBatons.EventDoes | openpeer/services/cpp/services_RUDPChannelStream.cpp:2080-2138 | what any other event does to every buffered packet: which are flagged for resending, hold a baton, keep their data or leave the buffer |
| RudpBatons.ForcedDoes | openpeer/services/cpp/services_RUDPChannelStream.cpp:659-677 | after a forced ACK exactly the packets up to the forced point that still have data are flagged, and none of them holds a baton |
| RudpBatons.ForcedKeeps | openpeer/services/cpp/services_RUDPChannelStream.cpp:659-677 | the loop after a forced ACK keeps the books |
| RudpBatons.ReceivedKeeps | openpeer/services/cpp/services_RUDPChannelStream.cpp:2094-2103 | a packet reported received is neither resent nor holds a baton |
| RudpBatons.Bursts.HandlePacketLoss_ | openpeer/services/cpp/services_RUDPChannelStream.cpp:1848-1905 | the loop that looks for a baton to destroy, in place |
| RudpBatons.Bursts.HandleForcedAck | openpeer/services/cpp/services_RUDPChannelStream.cpp:659-677 | the loop that flags packets and reclaims batons, in place |
| RudpBatons.Bursts.EndBurst | openpeer/services/cpp/services_RUDPChannelStream.cpp:1387-1396 | the last packet of a burst takes a free baton, unless it has been released |
| RudpBatons.Bursts.FlagAsReceived_ | openpeer/services/cpp/services_RUDPChannelStream.cpp:2094-2103 | stops resending, returns the baton, drops the data |
| RudpChannelStream.RUDPChannelStream.HandleAck_ | openpeer/services/cpp/services_RUDPChannelStream.cpp:1581-1833 | ends in the state HandleAck computes, in the order of the source's checks; false is IllegalACK |
| RudpChannelStream.RUDPChannelStream.HandlePacket_ | openpeer/services/cpp/services_RUDPChannelStream.cpp:437-552 | ends in the state HandlePacket computes: window, duplicates, acknowledgement, delivery of the data |
| RudpChannelStream.RUDPChannelStream.HandleExternalAck_ | openpeer/services/cpp/services_RUDPChannelStream.cpp:590-640 | ends in the state HandleExternalAck computes |
| RudpChannelStream.RUDPChannelStream.HandleVector | openpeer/services/cpp/services_RUDPChannelStream.cpp:1709-1822 | marks what the vector reports and judges its parity |
| RudpChannelStream.RUDPChannelStream.DeliverReadPackets | openpeer/services/cpp/services_RUDPChannelStream.cpp:1936-1980 | removes packets from the front as long as the next number is there, and writes their data to the receive stream |
| RudpChannelStream.RUDPChannelStream.GetState | openpeer/services/cpp/services_RUDPChannelStream.cpp:696-762 | gives exactly the acknowledgement CurrentAck describes |
| RudpChannelStream.RUDPChannelStream.CreatePacket | openpeer/services/cpp/services_RUDPChannelStream.cpp:1207-1338 | makes the next packet, with a fresh vector or the one of the burst's first packet, as it arrives at the peer, and buffers it |
| RudpChannelStream.RUDPChannelStream.constructor | openpeer/services/cpp/services_RUDPChannelStream.cpp:228-264 | starts in the state of a new stream |
| RudpChannelStream.WalkVector | openpeer/services/cpp/services_RUDPChannelStream.cpp:1722-1779 | the loop over buffered packets and vector finds the marks, the parity and whether it could be computed |
| RudpChannelStream.EraseAcknowledged | openpeer/services/cpp/services_RUDPChannelStream.cpp:1685-1697 | the loop that erases every packet up to GSNFR, and no other |
| RudpChannelStream.OfferAll | openpeer/services/cpp/services_RUDPChannelStream.cpp:719-750 | the loop that offers the received packets and the gaps to the encoder writes the whole encoding |
| RudpChannelStream.ParityWithoutRest | openpeer/services/cpp/services_RUDPChannelStream.cpp:1726-1729 | states beyond the buffered packets do not count for the parity, so the loop may stop early |
| ProtoMessages.MergeIsAssociative | javascript/phonenumbernormalizer/js/message.js:418-451 | merging b and then c equals merging the merge of b and c, at every depth, unknown fields of the target included |
| ProtoMessages.EmptyIsRightIdentity | javascript/phonenumbernormalizer/js/message.js:418-451 | merging a new message changes nothing |
| ProtoMessages.MergeIsWellTyped | javascript/phonenumbernormalizer/js/message.js:418-451 | a merge of well-typed messages of one type is well typed |
| ProtoMessages.ValuesAssociate | javascript/phonenumbernormalizer/js/message.js:431-448 | per field: scalars overwritten, lists concatenated, sub-messages merged, associatively |
| MergeHistories.ScalarsAreLatest | javascript/phonenumbernormalizer/js/message.js:418-451 | after any number of merges a scalar field holds the value of the last source that has it, or else its own |
| MergeHistories.ListsAreGathered | javascript/phonenumbernormalizer/js/message.js:418-451 | a repeated field holds its own items and then copies of the items of every source, in order |
| MergeHistories.ChildrenAreMerged | javascript/phonenumbernormalizer/js/message.js:436-442 | a sub-message holds what merging the sub-messages of all sources makes of it, and is there when one of them is |
| MessageEquality.EqualsComparesKnown | javascript/phonenumbernormalizer/js/message.js:350-389 | two messages are equal exactly when they are identical up to unknown fields at every depth |
| MessageEquality.EqualsIsAnEquivalence | javascript/phonenumbernormalizer/js/message.js:350-389 | equals is reflexive, symmetric and transitive |
| MessageEquality.MergeRespectsEquals | javascript/phonenumbernormalizer/js/message.js:418-451 | equal targets and equal sources merge to equal messages |
| MessageEquality.KnownOfMerge | javascript/phonenumbernormalizer/js/message.js:418-451 | forgetting unknown fields commutes with merging |
| MessageEquality.MergeIgnoresUnknown | javascript/phonenumbernormalizer/js/message.js:418-451 | unknown fields of a source reach the target at no depth |
| MessageEquality.CloneEqualsExactlyWhen | javascript/phonenumbernormalizer/js/message.js:454-462 | a clone equals the original exactly when no present repeated field, at any depth, is empty |
| MessageEquality.CloneIsIdempotent | javascript/phonenumbernormalizer/js/message.js:454-462 | cloning a clone changes nothing |
| MessageEquality.MergeNeverEmpty | javascript/phonenumbernormalizer/js/message.js:431-434 | mergeFrom brings no empty list into a message, whatever the source holds |
| MessageHistories.BuiltMessagesEqualTheirClones | javascript/phonenumbernormalizer/js/message.js:391-462 | every message built by set, add, clear, setUnknown, mergeFrom and copyFrom equals its clone |
| MessageHistories.HistoryKeepsNoEmpty | javascript/phonenumbernormalizer/js/message.js:714-732 | no sequence of those calls leaves a present repeated field empty |
| PbLite.RoundTrip | javascript/phonenumbernormalizer/js/pbliteserializer.js:87-193 | deserializing the serialization gives back the message itself, unknown fields included, nested, in both indexings |
| PbLite.WireForm | javascript/phonenumbernormalizer/js/pbliteserializer.js:87-165 | the array has an entry at the tag, or with zero indexing at the one before it, exactly for the known fields that are present and the unknown ones: booleans as 1 or 0, sub-messages as arrays, lists item by item, anything else as it is |
| PbLite.SixtyFourBitFieldsReadBoth | javascript/phonenumbernormalizer/js/serializer.js:123-148 | up to 2^53 a 64-bit integer is read the same from a number and from a string of digits, into either native type |
| PbLite.DigitsReadExactlyWhen | javascript/phonenumbernormalizer/js/serializer.js:136-146 | a string of digits is read into a number without loss exactly when the integer has no more than 53 significant bits |
| PbLite.IntegerReadsBack | javascript/phonenumbernormalizer/js/serializer.js:130-147 | the decimal string of every integer passes the pattern and denotes it |
| PbLite.DecodingTwice | javascript/phonenumbernormalizer/js/pbliteserializer.js:167-177 | a decoded value decodes to itself exactly when it is not true in a boolean field |
| MessageAnswers.AnswersTellHistory | javascript/phonenumbernormalizer/js/message.js:528-800 | every call on an eager message is answered by the history of calls alone: get, count, has, the list and the default by the values set and added since the field was cleared last, and a call that breaks a rule fails |
| MessageAnswers.LazyAnswersTellHistory | javascript/phonenumbernormalizer/js/message.js:556-800 | so is every call on a message deserialized from its serialization, unless true is added to booleans |
| MessageAnswers.AddedIsAnswered | javascript/phonenumbernormalizer/js/message.js:590-676 | after a repeated field was cleared last, get gives the values added since by their number, and the list and the count are theirs |
| MessageStores.MemoIsTransparent | javascript/phonenumbernormalizer/js/message.js:546-781 | a lazy message answers every sequence of calls as the eager one with the same contents, and ends with the same contents, unless true is added to a boolean list |
| MessageStores.DeserializedAnswersAsOriginal | javascript/phonenumbernormalizer/js/lazydeserializer.js:42-48 | a message deserialized from a serialization answers as the original did |
| MessageStores.AddsAlikeExactlyWhen | javascript/phonenumbernormalizer/js/message.js:714-732 | after an add, lazy and eager message hold the same exactly when true was not added to booleans |
| MessageStores.StepsAlike | javascript/phonenumbernormalizer/js/message.js:510-781 | every single call keeps the two forms together and answers alike |
| MessageStores.ReadingIsTransparent | javascript/phonenumbernormalizer/js/message.js:546-575 | reading fills the memo without changing what the message holds |
| LazyMerges.FirstMergeCountsExactlyWhen | javascript/phonenumbernormalizer/js/message.js:425-442 | whatever is merged next into a sub-message that is still serialized, the first merge counts exactly when all it brought is in the raw array: in the default indexing all but true in boolean fields, with zero indexing only what lists, arrays and messages share with the copy |
| LazyMerges.SecondMergeStartsFromWhatIsLeft | javascript/phonenumbernormalizer/js/message.js:425-442 | what two merges leave in closed form, in both indexings |
| LazyMerges.MergeShows | javascript/phonenumbernormalizer/js/message.js:418-451 | right after a merge a lazily deserialized message holds both, but that true in a list of booleans reads as false, at every depth |
| LazyMerges.MergeLeaves | javascript/phonenumbernormalizer/js/pbliteserializer.js:181-193 | what is decoded again from the raw array a merge wrote through to |
| LazyMerges.MergeKeeps | javascript/phonenumbernormalizer/js/message.js:418-451 | exactly when nothing is lost in between |
| LazyMerges.MessagesTakeInEveryMerge | javascript/phonenumbernormalizer/js/message.js:436-442 | a sub-message that was set or is not there takes in every merge |
| Messages.Message.GetValueForField | javascript/phonenumbernormalizer/js/message.js:546-575 | the value from the memo, decoded into it, or from the raw store |
| Messages.Message.GetValue_ | javascript/phonenumbernormalizer/js/message.js:590-606 | a value or list item, failing where the source asserts |
| Messages.Message.GetValueOrDefault | javascript/phonenumbernormalizer/js/message.js:622-631 | the default value exactly when the field is not present |
| Messages.Message.ArrayValues_ | javascript/phonenumbernormalizer/js/message.js:644-651 | the decoded list, empty when absent |
| Messages.Message.CountValues_ | javascript/phonenumbernormalizer/js/message.js:664-676 | the count taken from the raw values |
| Messages.Message.SetValue_ | javascript/phonenumbernormalizer/js/message.js:688-702 | updates raw store and memo together |
| Messages.Message.AddValue_ | javascript/phonenumbernormalizer/js/message.js:714-732 | pushes onto the raw list and drops the memo |
| Messages.Message.ClearField | javascript/phonenumbernormalizer/js/message.js:775-781 | removes the field from both |
| Messages.Message.SetUnknown_ | javascript/phonenumbernormalizer/js/message.js:153-164 | stores an unknown field, failing on known tags, tags below one and null |
| Messages.Message.InitializeForLazyDeserializer | javascript/phonenumbernormalizer/js/message.js:138-144 | raw data with an empty memo |
| Messages.PbLiteSerializer.Serialize | javascript/phonenumbernormalizer/js/pbliteserializer.js:87-124 | the loops over known and unknown fields write exactly the encoding |
| Messages.PbLiteSerializer.Deserialize | javascript/phonenumbernormalizer/js/pbliteserializer.js:181-193 | shifts the indices when zero-indexed and makes a lazy message |
| Messages.PbLiteSerializer.DeserializeField | javascript/phonenumbernormalizer/js/pbliteserializer.js:128-150 | decodes a value or every item of a list |
| MessageTrees.Message.MergeFrom | javascript/phonenumbernormalizer/js/message.js:418-451 | merges a message that shares nothing into this one in place, giving exactly the merge of the contents and leaving the source as it was |
| MessageTrees.Message.CopyFrom | javascript/phonenumbernormalizer/js/message.js:397-408 | becomes a copy of the other message, which may be a sub-message of this one; copying oneself changes nothing |
| MessageTrees.Message.Cloned | javascript/phonenumbernormalizer/js/message.js:458-462 | a clone made of new objects only |
| MessageTrees.Message.EqualTo | javascript/phonenumbernormalizer/js/message.js:350-389 | decides equality field by field |
| MessageTrees.Message.MergeField | javascript/phonenumbernormalizer/js/message.js:424-449 | the body of the loop over the fields |
| MessageTrees.Message.MergeChild | javascript/phonenumbernormalizer/js/message.js:436-444 | merges into the sub-message there is, or stores a clone, and disturbs no other sub-message |
| MessageTrees.Message.AppendClones | javascript/phonenumbernormalizer/js/message.js:431-434 | adds a clone of each sub-message |
| MessageTrees.MergeIntoClone | javascript/phonenumbernormalizer/js/message.js:454-462 | changing a clone does not change the original |
| SelfMerges.SelfMergeEndsExactlyWhen | javascript/phonenumbernormalizer/js/message.js:418-451 | an eager message merged into itself comes to an end, in any order of its fields, exactly when no list reached without going through a list has an item, and then nothing has changed |
| SelfMerges.NeverEnds | javascript/phonenumbernormalizer/js/message.js:432-434 | the loop over a list that add pushes onto has one more round to go after any number of rounds |
| SelfMerges.CopyChangesNothingExactlyWhen | javascript/phonenumbernormalizer/js/message.js:418-451 | the same condition says when merging an equal copy changes nothing |
| ObjectSerializers.ObjectRoundTripExactlyWhen | javascript/phonenumbernormalizer/js/objectserializer.js:71-159 | in both key modes and for every order of the properties, reading what was written gives the message back exactly when no present repeated field, at any depth, is empty |
| ObjectSerializers.RoundTrip | javascript/phonenumbernormalizer/js/objectserializer.js:71-159 | the message read is the one written without its empty lists, unknown fields included, and no assertion fails |
| ObjectSerializers.WrittenForm | javascript/phonenumbernormalizer/js/objectserializer.js:71-105 | the properties in their order: tags as keys in TAG mode, names for the known fields in NAME mode; sub-messages as objects, lists item by item, anything else as it is |
| ObjectSerializers.FilledSame | javascript/phonenumbernormalizer/js/objectserializer.js:87-94 | leaving out empty lists changes nothing exactly when there are none |
| ObjectSerializers.ItemsRead | javascript/phonenumbernormalizer/js/objectserializer.js:139-144 | adding the written items one by one rebuilds the list, nested messages included |
| ObjectSerializers.ObjectSerializer.DeserializeTo | javascript/phonenumbernormalizer/js/objectserializer.js:119-159 | the loops over properties and items set, add and set unknown fields of the message in place, and stop at a failed assertion, as the loading function says |
| LoaderRuns.ScriptsComeInOrder | javascript/phonenumbernormalizer/js/base.js:537-644 | on a closed acyclic graph any sequence of requires imports each script at most once, after everything it needs that was not provided, and imports every registered name asked for |
| LoaderRegistrations.RegistrationRecords | javascript/phonenumbernormalizer/js/base.js:261-280 | for every graph: exactly the names before the first empty one are recorded, for the path with slashes for backslashes; old needs come first, new ones in their order, each once, and no other path or name is touched |
| LoaderRegistrations.RegisteredScriptsComeInOrder | javascript/phonenumbernormalizer/js/base.js:261-356 | after any sequence of addDependency calls that offers all that is needed, without a circle, any sequence of requires imports each script at most once, after the scripts that provide what any registration of it needs and was not provided then, and imports every name asked for that was offered |
| LoaderRuns.NothingIsImportedTwice | javascript/phonenumbernormalizer/js/base.js:537-543 | no script is imported twice, whatever the graph, with failing calls and registrations in between |
| LoaderRuns.NothingElseIsImported | javascript/phonenumbernormalizer/js/base.js:588-644 | a call imports nothing outside what the included scripts need |
| LoaderRuns.RequireKeepsInv | javascript/phonenumbernormalizer/js/base.js:325-356 | a call that does not run into an unregistered name leaves every visited path written and the log in order, whatever else is unregistered |
| LoaderRuns.VisitSettles | javascript/phonenumbernormalizer/js/base.js:594-626 | visitNode leaves every path it visits scheduled after its needs |
| LoaderRuns.VisitAllSettles | javascript/phonenumbernormalizer/js/base.js:609-620 | the loop over the required names does the same |
| LoaderRuns.ImportAllKeepsOrder | javascript/phonenumbernormalizer/js/base.js:634-643 | importing in the scheduled order keeps the log in order |
| LoaderFailures.ScriptsComeInOrderExactlyWhen | javascript/phonenumbernormalizer/js/base.js:325-356 | on scripts without a cycle, registered before or between the calls, a sequence of requires keeps the order of imports exactly when no call runs into an unregistered name, as long as after such a call a needed name counts as provided only once its own script has been imported |
| LoaderFailures.OrderKeptExactlyWhen | javascript/phonenumbernormalizer/js/base.js:588-644 | the same from every state between two calls, under the same proviso |
| LoaderFailures.FailureIsNeverMadeGood | javascript/phonenumbernormalizer/js/base.js:598-618 | in any graph: after such a call, however the name is registered and whatever is required, and while needed names become provided only by importing their scripts, some script stays visited without being imported or was imported without a script it needs |
| LoaderFailures.BootstrappingMakesGood | javascript/phonenumbernormalizer/js/base.js:600-602 | the proviso is needed: when the missing name is provided by other means the same call made again keeps the order |
| LoaderFailures.OnlyImportsBootstrapNothing | javascript/phonenumbernormalizer/js/base.js:155-157 | where in all calls needed names are provided by imported scripts only, the proviso is met |
| LoaderFailures.LateRegistrationIsHarmless | javascript/phonenumbernormalizer/js/base.js:261-280 | registering new scripts between the calls loses nothing as long as no call fails that way |
| LoaderFailures.FailureSticks | javascript/phonenumbernormalizer/js/base.js:594-626 | what such a call leaves: an included script marked but unwritten, with a need of it that nothing before it brings in |
| LoaderFailures.StuckBreaks | javascript/phonenumbernormalizer/js/base.js:600-606 | a later call that imports anything imports that script bare |
| LoaderFailures.FailureForgetsNeeds | javascript/phonenumbernormalizer/js/base.js:598-618 | an instance: two scripts, one registered late |
| LoaderFailures.RequireAnswers | javascript/phonenumbernormalizer/js/base.js:325-356 | a provided name needs nothing done, exactly an unregistered one is not found and changes nothing, any other path is included, and nothing registered, visited or written is forgotten |
| LoaderFailures.FailureNamesCulprit | javascript/phonenumbernormalizer/js/base.js:594-618 | the name in the error is one that a visited script needs and that is neither provided nor registered |
| LoaderFailures.RequiredIsImportedExactlyWhen | javascript/phonenumbernormalizer/js/base.js:325-345 | in every state and graph: a call that comes to its end, for a name not provided before, has the script of the name imported exactly when its path was no key of deps.written or its address was one already |
| LoaderFailures.CollisionIsNeverImported | javascript/phonenumbernormalizer/js/base.js:595-597 | a path that is a key of deps.written, but whose own address is not, is imported by no later sequence of calls and registrations |
| LoaderFailures.DepsAddressIsNeverImported | javascript/phonenumbernormalizer/js/base.js:537-543 | the address of deps.js, registered as a path, is such a path from the start |
| ScriptLoader.Loader.VisitNode | javascript/phonenumbernormalizer/js/base.js:594-626 | the recursive walk over shared state computes Visit |
| ScriptLoader.Loader.WriteScripts_ | javascript/phonenumbernormalizer/js/base.js:588-644 | both loops compute WriteScripts, errors included |
| ScriptLoader.Loader.Require_ | javascript/phonenumbernormalizer/js/base.js:325-356 | computes Require, with its three outcomes |
| ScriptLoader.Loader.AddDependency | javascript/phonenumbernormalizer/js/base.js:261-280 | registers names up to the first empty one, with slashes normalized |
| ScriptLoader.Loader.ImportScript_ | javascript/phonenumbernormalizer/js/base.js:537-543 | imports a script unless it was written |
| Namespaces.RegistryMeansHistory | javascript/phonenumbernormalizer/js/base.js:106-157 | after any sequence of provides with any names: objects are the starting ones and all prefixes, the implicit namespaces are the names above the one that made their object and not provided, and isProvided_ accepts what was provided, what existed, and names whose object a name made that they do not lie above |
| Namespaces.ProvidedExactlyWhen | javascript/phonenumbernormalizer/js/base.js:155-157 | isProvided_ read as history for every name, in every such state |
| Namespaces.ExplicitAreTheNames | javascript/phonenumbernormalizer/js/base.js:106-116 | a name without empty parts was provided exactly when it was asked for and did not exist at the start, whatever other names were |
| Namespaces.MarkedAbove | javascript/phonenumbernormalizer/js/base.js:119-124 | for every name the loop marks exactly the missing ancestors, though it stops at the first existing one |
| Namespaces.WronglyProvidedExactlyWhen | javascript/phonenumbernormalizer/js/base.js:201-232 | a name counts as provided wrongly exactly when its object was made by a name it does not lie above; only names with an empty part can |
| Namespaces.WellFormedIsAbove | javascript/phonenumbernormalizer/js/base.js:155-157 | a name without empty parts lies above whatever made its object, or is that name |
| Namespaces.TrailingDotIsProvided | javascript/phonenumbernormalizer/js/base.js:201-232 | providing one name makes the same name with a dot at its end count as provided |
| Namespaces.Goog.Provide_ | javascript/phonenumbernormalizer/js/base.js:106-128 | marks implicit namespaces in place, or fails when already declared |
| Namespaces.Goog.ExportPath_ | javascript/phonenumbernormalizer/js/base.js:183-210 | creates exactly the missing objects on the path |
| Namespaces.Goog.GetObjectByName | javascript/phonenumbernormalizer/js/base.js:223-234 | walks the parts up to the first empty or missing one |
| JsonRoundTrip.ReadsBackExactlyWhen | javascript/phonenumbernormalizer/js/json.js:174-349 | the reference parser maps the printed text back to the value, undefined and non-finite as null, exactly when no function is at the top or in an array |
| JsonRoundTrip.ValueReads | javascript/phonenumbernormalizer/js/json.js:188-223 | a value inside a text is read back and nothing after it |
| JsonRoundTrip.UnprintableMisreads | javascript/phonenumbernormalizer/js/json.js:216-219 | a value with a function in the wrong place is never read back as itself |
| JsonRoundTrip.StringReads | javascript/phonenumbernormalizer/js/json.js:263-283 | every string of code units reads back, escaped or not |
| JsonRoundTrip.NumberReads | javascript/phonenumbernormalizer/js/json.js:292-294 | every printed number reads back |
| JsonShapes.StringIsWritten | javascript/phonenumbernormalizer/js/json.js:231-287 | a string is printed character by character: printable ASCII as itself but for the quote and the backslash, those and five control characters with two characters, everything else with four hexadecimal digits in lower case that denote it |
| JsonShapes.PrintAddsNoSpace | javascript/phonenumbernormalizer/js/json.js:174-340 | the text has no other spaces than the strings that are printed |
| JsonTexts.PrintIsPlain | javascript/phonenumbernormalizer/js/json.js:254-256 | the output is printable ASCII, except raw characters beyond one byte where they are not matched |
| JsonSerializer.CharCache.Lookup | javascript/phonenumbernormalizer/js/json.js:267-282 | the cache always holds what the computation gives |
| JsonSerializer.PaddedIsEscape | javascript/phonenumbernormalizer/js/json.js:272-281 | padding gives exactly four hexadecimal digits |
| JsonSerializer.Serializer.Serialize | javascript/phonenumbernormalizer/js/json.js:174-178 | the joined pieces are the printed text, whatever the cache held |
| JsonSerializer.Serializer.SerializeArray | javascript/phonenumbernormalizer/js/json.js:303-318 | pushes the items with their separators |
| JsonSerializer.Serializer.SerializeObject | javascript/phonenumbernormalizer/js/json.js:327-349 | pushes the properties that are no functions |
| JsonSerializer.Serializer.SerializeString | javascript/phonenumbernormalizer/js/json.js:263-283 | pushes the escaped string between quotes |
| SortedArrays.Search | javascript/phonenumbernormalizer/js/array.js:995-1019 | the lowest match, or the complement of the insertion point |
| SortedArrays.SearchIsRightExactlyUpToLimit | javascript/phonenumbernormalizer/js/array.js:995-1019 | the search comes to its end with the right answer, for every order of signs that never rises, exactly on the lengths up to 2^30 |
| SortedArrays.TooLongFails | javascript/phonenumbernormalizer/js/array.js:1002 | on every longer array the search for what comes after all elements never gives the right answer, whatever comparing with undefined gives |
| SortedArrays.BinarySearch | javascript/phonenumbernormalizer/js/array.js:933-937 | the same for a sorted array and a comparison |
| SortedArrays.BinaryInsert | javascript/phonenumbernormalizer/js/array.js:1232-1239 | inserts in place, and reports whether the value was absent |
| SortedArrays.BinaryRemove | javascript/phonenumbernormalizer/js/array.js:1252-1255 | removes in place, and reports whether the value was present |
| SortedArrays.RunIsASet | javascript/phonenumbernormalizer/js/array.js:1221-1255 | any run from the empty array stays strictly increasing and holds the classes of the mathematical set |
| SortedArrays.RunListsTheSet | javascript/phonenumbernormalizer/js/array.js:1221-1255 | when only identical elements compare equal, it lists the set itself |
| SortedArrays.InsertedIsUnion | javascript/phonenumbernormalizer/js/array.js:1232-1239 | insertion adds exactly the class of the value |
| SortedArrays.RemovedIsDifference | javascript/phonenumbernormalizer/js/array.js:1252-1255 | removal takes away exactly the class of the value |
| SortedArrays.Execute | javascript/phonenumbernormalizer/js/array.js:1221-1255 | the in-place operations compute the run, and each result says whether the set changed |
| SortedArrays.ShiftIsMidpointExactlyUpToLimit | javascript/phonenumbernormalizer/js/array.js:1002 | the 32-bit shift is the midpoint of every search exactly up to 2^30 elements |
| StableSorts.StableSort | javascript/phonenumbernormalizer/js/array.js:1070-1082 | decorates, sorts with any native sort and undecorates in place, giving the stable sort |
| StableSorts.DecorationIsStable | javascript/phonenumbernormalizer/js/array.js:1070-1082 | any sort of the decorated array is the stable sort of the values |
| StableSorts.StableSortIsUnique | javascript/phonenumbernormalizer/js/array.js:1057-1069 | there is only one stable sort |
| StableSorts.NativeSortsAgree | javascript/phonenumbernormalizer/js/array.js:1070-1082 | the decorated comparison is a strict total order, so every native sort gives one and the same order |
| Shuffles.Shuffle | javascript/phonenumbernormalizer/js/array.js:1425-1436 | shuffles in place by the choices the random numbers make |
| Shuffles.EachPermutationOnce | javascript/phonenumbernormalizer/js/array.js:1425-1436 | the results are exactly the permutations, each from exactly one choice sequence |
| Shuffles.ShuffledIsOnto | javascript/phonenumbernormalizer/js/array.js:1425-1436 | every permutation comes from some choices |
| Shuffles.ShuffledIsInjective | javascript/phonenumbernormalizer/js/array.js:1425-1436 | different choices give different arrays |
| Shuffles.ShuffledIsBlind | javascript/phonenumbernormalizer/js/array.js:1425-1436 | a shuffle never looks at the elements |
| Shuffles.PickIsUniform | javascript/phonenumbernormalizer/js/array.js:1430 | each index is picked from one of equally long intervals |
| CommonSubsequences.LongestExactlyWhen | javascript/phonenumbernormalizer/js/math.js:233-284 | no common subsequence is longer, for every comparison, exactly when the first array is at least as long or has at most one element |
| CommonSubsequences.WalkIsCommon | javascript/phonenumbernormalizer/js/math.js:269-281 | the result is always a common subsequence |
| CommonSubsequences.WalkIsResult | javascript/phonenumbernormalizer/js/math.js:233-284 | in terms of the arrays: positions strictly increasing in both, at which the elements compare as equal, shown by the collector, and none longer when the first array is at least as long or has at most one element |
| CommonSubsequences.LongestForEqualExactlyWhen | javascript/phonenumbernormalizer/js/math.js:233-284 | already for the default comparison no common subsequence is longer exactly for those lengths |
| CommonSubsequences.LcsIsUpperBound | javascript/phonenumbernormalizer/js/math.js:256-267 | no common subsequence is longer than the recurrence |
| CommonSubsequences.FillTable | javascript/phonenumbernormalizer/js/math.js:247-267 | the table with its truncated columns and unused cells |
| CommonSubsequences.LongestCommonSubsequence | javascript/phonenumbernormalizer/js/math.js:233-284 | the loops compute that walk, and so a common subsequence of the two arrays as the collector shows it, one of the longest for those lengths |
| DomWalks.GetNextNode | javascript/phonenumbernormalizer/js/dom.js:1156-1170 | the next node in document order, or null at the end |
| DomWalks.GetPreviousNode | javascript/phonenumbernormalizer/js/dom.js:1179-1194 | the previous node in document order, so it undoes the step forward |
| DomWalks.VisitAll | javascript/phonenumbernormalizer/js/dom.js:1156-1170 | iterating from the root visits every node exactly once, in document order |
| DomWalks.NodesAreDistinct | javascript/phonenumbernormalizer/js/dom.js:1156-1194 | no node has two places in document order |
| DomWalks.FindNodes | javascript/phonenumbernormalizer/js/dom.js:1572-1589 | collects exactly the matching descendants in document order, or the first only |

## Left out

- RUDP timing: round-trip estimation, retransmission timers, window estimation and shutdown; resending an unchanged buffer is a duplicate on the network.
- RudpHints.TimelyRunsAlike: packets that are not timely may be taken for others; what a run does after that is not covered.
- RUDP sequence numbers are unbounded, and only honest ends and a network that forges nothing are considered.
- RudpChannelStream.RUDPChannelStream.HandlePacket_: the ECN and duplicate flags, the receive shutdown and the sending that follows are not modelled; whether the last delivery is too old is a parameter.
- RudpChannelStream.RUDPChannelStream.CreatePacket: the packet is given as it arrives; the ACK-required and duplicate flags and the choice of how much data to take are left out.
- RudpDelivery.DeliveredPrefixExactlyWhen: that everything sent is delivered in the end; nothing forces a network that loses to deliver, and `RudpProgress.EverythingCanArrive` says that it still can.
- RudpBatons: which packet is chosen for resending, and when bursts start, are left to events in any order.
- A sub-message of a lazy message is modelled by its decoded contents: changing it in place other than by mergeFrom is not covered.
- Messages.Message.InitializeForLazyDeserializer: the raw data is a value there; what follows from sharing it with the parent is in `LazyMerges`.
- Messages.PbLiteSerializer.Deserialize: without zero indexing the source keeps the caller's own array, so changing that array later changes the message.
- Messages: repeated fields hold lists and messages hold arrays indexed by tag; other raw data in those places, NaN and numbers beyond exact integers are not covered, nor is `initDefaults`.
- MessageTrees.Message.MergeFrom: the two messages share no sub-message; repeated fields are sequences, so sharing of the array objects themselves is not expressed.
- ObjectSerializers.ObjectRoundTripExactlyWhen: in NAME mode field names are distinct and none consists of digits only, as protocol-buffer definitions guarantee; unknown fields are ones `setUnknown` accepts; raw composite values are objects or messages.
- ObjectSerializers.Serialized: the two loops of `serialize` are given as one function for every order in which the properties may be enumerated; only the reading side is also modelled as methods.
- The replacer of the JSON serializer, cyclic object graphs, and how ECMAScript turns a number into digits: a finite number stands for its decimal notation.
- `goog.json.parse`, which evaluates its input or matches it against regular expressions.
- Script tags, base path detection and scripts that run while others are imported; an import always succeeds.
- Namespaces.Goog.ExportPath_: the tree of namespace objects is kept as the set of its paths, and no object is exported at the end of a path.
- SortedArrays.Search: arrays of more than 2^30 elements, on which `SortedArrays.SearchIsRightExactlyUpToLimit` shows the search to fail.
- Prototype lookups, loose comparison and holes in arrays throughout.
- The other interfaces of `openpeer/core`, `openpeer/stack` and `openpeer/services`, which declare no behaviour, and the browser-specific parts of `dom.js`.
