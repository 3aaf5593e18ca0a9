# Streaming gateway: a Dafny model

This project models the data path of a video streaming gateway and the algorithms of the Crow web
framework it is served with, and proves what they promise. `dafny verify dfyconfig.toml` checks it.

## The gateway

* **Shared-memory queue** (`RingLayout`, `RingQueue`, `RingJoin`, `RingProtocol`, `RingEveryRun`,
  `RingEqualSizes`, `RingWrap`, `RingFailures`, `SharedQueue`). One region of raw octets holds a metric and,
  from address 32 on, messages of a one-octet flag, an eight-octet length, an eight-octet relative `next` and
  the payload. `RingLayout` gives every field its octets, `RingQueue` refines the region to a sequence of
  unread payloads, `RingProtocol` interleaves one producer and one consumer with locking, polling, copying,
  acknowledging and moving the head as separate steps, `RingEveryRun` and `RingEqualSizes` say what holds
  however full the queue is when a write wraps, `RingWrap` and `RingFailures` what goes wrong then, and
  `SharedQueue` runs the code on an array.
* **Checksums** (`ShiftRegister`, `Crc16`, `Crc8`, `ChecksumExamples`): the table-driven loops equal bit-serial
  shift registers, and detect short bursts.
* **TCP** (`TcpFraming`, `TcpPool`): length-prefixed frames over sockets that split as they like, and the
  threads that pass the received buffers on.
* **Daemon, frames, playlist** (`Batching`, `FrameMarshalling`, `Playlist`, `PlaylistText`).

## The web framework

* **Route trie** (`UrlMatching`, `RouteTrie`, `RouteRules`, `RouteParams`, `Router`): an index that agrees with
  a linear scan, and what a rule's text takes from the characters of a URL.
* **JSON** (`JsonText`, `JsonNumber`, `JsonTree`, `JsonGrammar`, `JsonStandard`, `JsonParser`, `JsonReader`,
  `JsonWriter`, `Decimal`): a printer, a specification of the parser, their round trip, the grammar it accepts
  and how that differs from RFC 8259, the parser that works in place, and reading the strings out of its
  buffer one by one.
* **WebSocket** (`WebSocketFrames`, `WebSocketReader`, `WebSocketMessages`, `WebSocketWire`,
  `WebSocketConnection`): section 5 of RFC 6455, down to the bits of a frame.
* **HTTP bodies** (`HttpBody`, `HttpChunks`, `HttpGrammar`, `HttpParser`): sections 3.3.3 and 4.1 of RFC 7230,
  in both directions: well-formed messages are received, and what is not refused is one or begins one; an
  extension is any text without a carriage return.
* **SHA-1** (`Sha1Standard`, `Sha1`, `Sha1Example`): sections 5.1.1 and 6.1.2 of FIPS 180-4.
* **base64** (`Base64`): sections 4 and 5 of RFC 4648; with SHA-1 the handshake answer (`WebSocketHandshake`).
* **mustache** (`MustacheParse`, `MustacheTree`, `MustacheRender`, `MustacheLookup`, `MustacheText`): the block
  structure, and what tags, blocks and names put into the text.

## Results that say where the code falls short

* FIFO order does not survive a wrap that finds unread messages, because the old rear's `next` is not
  relinked (core/common/src/ipc_message_queue.cpp:199 and 257-261). The main theorem therefore asks every
  wrap to find the queue drained; `RingQueue.WrapIsLinkedIffDrained` makes that condition exact,
  `RingWrap` follows the undrained case to the octets that are read instead, and
  `RingFailures.UndrainedWrapBreaksOrder` is a whole run that delivers an empty payload for a message. After
  it the branch that wraps without a join overwrites an unread message
  (`RingFailures.WrapWithoutJoinLosesMessage`). What does hold without that condition: mutual exclusion,
  flags only for copied messages, a set flag on the first message after a join (`RingEveryRun`), and for
  equal-size messages in a zeroed region that nothing torn is returned (`RingEqualSizes.NothingIsTorn`).
* `TraversalQueue` adds a queue-relative offset to the current address. It visits exactly the messages the
  new one destroys if and only if these are at most two and the new message is no longer than all messages
  of the lap (`RingJoin.TraversalIsExactUpToTwo`). Equal-size camera frames visit one. A third message is not
  waited for, and a message longer than the lap makes the traversal go on behind it, where JoinListener may
  wait for ever: with a region of 100 zeroed octets, a message of one octet and then one of 70
  (`RingFailures.LongerMessageWaitsForever`).
* Pool workers may overtake each other: order holds for at most one worker and for no larger pool
  (`TcpPool.OrderedIffOneWorker`); a pool of none leaves tasks behind.
* `message_complete` fires again for every octet executed behind a complete body of known length
  (`HttpBody.IdentityBody`), and without a body for every further line feed, while any other octet is refused
  (`HttpBody.EmptyBody`). `feed` keeps later buffers out, so these are octets of the same buffer.
* The playlist's exporter throws as soon as the file holds a segment number beyond int
  (`Playlist.ReadLastSegmentNumber`).
* Printed JSON parses back exactly up to 5000 levels (`JsonTree.DumpParseRoundTrip`).
* SHA-1 pads as the standard does exactly below 2^29 octets (`Sha1.PaddingIsStandard`).
* `add` indexes several rules under one number for redirects, so with repeated indices the trie returns some
  best match and only with distinct indices the scan's own (`RouteRules.TrieIsLinearScan`).
* The JSON parser refuses an exponent directly behind a single zero, as in `0e5`, and accepts a point or a
  sign without a digit behind it, as in `1.`; otherwise its numbers are exactly those of RFC 8259
  (`JsonStandard.NumberIsStandard`). Its strings may have raw control characters in them
  (`JsonStandard.PieceIsStandard`), and a `\u` escape of half a surrogate pair becomes three octets of its own.

## How things are represented

* Memory is a sequence or array of octets on a little-endian 64-bit machine. The metric's fields are fields of
  the queue; an address is a position in the region. The overflow test bounds a message by queue start plus
  the region's size, so the array has `sizeof(QueueMetric)` octets more than the region, and a message is
  assumed to be smaller than the region. A step that would read a header outside the array cannot happen.
* Which messages were published and delivered, the current lap and how much of it was read are history
  that no step reads.
* Sections under a mutex are one step each; condition variables are the conditions they wait for.
* A trie node holds its children by value in C++, so a node is a value here too and `add`, `optimize` and
  `find` are recursive methods that rebuild or follow it. The trie, the search record, the parsers, the digest,
  the connection, the queue and the daemon are classes with the source's fields.
* Parameter readers of the router are one function that the trie and the scan share; `CrowParams` is Crow's,
  with `strtod` left open.
* A character of JSON, URL or template text is one octet. A JSON number is kept as its text.
* In `TcpFraming` and `WebSocketReader` the amount a socket call transfers is chosen freely between one octet
  and what was asked for.
* Masks and shifts of octets in base64, UTF-8 and WebSocket headers are written as quotients and remainders;
  the checksums and SHA-1's words are bit vectors.
* The checksum tables are generated again on every call, because entry 0 is always 0; the methods do that.

## Model

| member | source | states |
|---|---|---|
| `RingLayout.SlotStartsIncrease` | core/common/src/ipc_message_queue.h:53-63 | messages of a lap lie one behind the other and never overlap |
| `RingLayout.SlotFields` | core/common/src/ipc_message_queue.h:32-51 | for every queued message the flag, length, next and payload read at the helpers' offsets are what was written, and next is the address of the following message |
| `RingLayout.AppendSlot` | core/common/src/ipc_message_queue.cpp:48-88 | writing a message behind the lap leaves every octet of the earlier messages alone and extends the lap by that message |
| `RingLayout.MarkSlot` | core/common/src/ipc_message_queue.cpp:40-42 | setting a processed flag changes that one octet of the lap and no other message |
| `RingQueue.InitializedRepresents` | core/common/src/ipc_message_queue.cpp:100-112 | InitializeQueue establishes the representation invariant for the empty queue, whatever the region held |
| `RingQueue.NextStartIsLapEnd` | core/common/src/ipc_message_queue.cpp:173-181 | following the rear's next yields exactly the first free address behind the last message |
| `RingQueue.OverflowsIffLapIsFull` | core/common/src/ipc_message_queue.cpp:187 | the overflow test holds if and only if the queue start, the octets of the current lap and those of the new message reach the region's size |
| `RingQueue.Capacity` | core/common/src/ipc_message_queue.cpp:159-220 | from InitializeQueue on, the given payloads are all published without a join if and only if 32, 17 octets for each and their lengths together are below the region's size |
| `RingQueue.LooksEmptyIffNothingUnread` | core/common/src/ipc_message_queue.cpp:229-232 | the emptiness test holds if and only if the abstract queue has no unread message |
| `RingQueue.CommitExtendsLap` | core/common/src/ipc_message_queue.cpp:207-217 | Enqueue without a wrap keeps the representation, appends the payload to the unread messages and leaves all octets below the new message unchanged |
| `RingQueue.CommitStartsLap` | core/common/src/ipc_message_queue.cpp:187-217 | Enqueue that wraps on a drained queue establishes the representation with the new message alone |
| `RingQueue.RemovedTakesFront` | core/common/src/ipc_message_queue.cpp:223-282 | Deque on a non-empty queue returns the first unread payload and keeps the representation with the rest |
| `RingQueue.RepresentedIsLinked` | core/common/src/ipc_message_queue.cpp:207-217 | following next from head reaches rear after exactly message_cnt - 1 hops and not before |
| `RingQueue.WrapIsLinkedIffDrained` | core/common/src/ipc_message_queue.cpp:199-216 | a wrapping write leaves head linked to rear if and only if head was 0; otherwise the old chain runs past the old rear to the old lap's end, never to the new message |
| `RingJoin.TraversalIsExactUpToTwo` | core/common/src/ipc_message_queue.cpp:114-130 | the traversal visits exactly the messages the wrapped write destroys if and only if these are at most two and the new message is no longer than the lap, for every non-empty lap and size |
| `RingJoin.TraversalVisitsFirstTwo` | core/common/src/ipc_message_queue.cpp:114-130 | whatever the sizes, the first two destroyed messages are among those visited |
| `RingJoin.TraversalLeavesLap` | core/common/src/ipc_message_queue.cpp:114-157 | a message longer than a one-message lap makes the traversal visit the cleared octets behind it, and the join cannot return |
| `RingJoin.ThirdAddressIsWrong` | core/common/src/ipc_message_queue.cpp:127 | when more than two messages are destroyed the traversal never visits the right addresses, because next is added to the current address |
| `RingJoin.JoinProtectsUnread` | core/common/src/ipc_message_queue.cpp:146-157 | when all visited flags are set and at most two messages are destroyed, each of them was processed and the write ends in front of the first unread message, also when it ends behind the lap |
| `RingJoin.ThirdIsNotProtected` | core/common/src/ipc_message_queue.cpp:127-157 | a third destroyed message is not waited for: the join can return while it is unread |
| `RingJoin.UniformOverwritesOne` | core/common/src/ipc_message_queue.cpp:114-157 | among equal-size messages a wrapped write destroys exactly the first message of the lap, so the traversal is exact |
| `RingProtocol.MutualExclusion` | core/common/src/ipc_message_queue.h:72-78 | every step keeps: whoever is in the critical section holds the flag, and producer and consumer are not both inside |
| `RingProtocol.NeverBothInside` | core/common/src/ipc_message_queue.h:72-78 | in every interleaving, wraps of any kind included, producer and consumer are never both inside |
| `RingProtocol.PutInLapStep` | core/common/src/ipc_message_queue.cpp:207-217 | publishing inside a lap keeps the system invariant |
| `RingProtocol.PutWrappedStep` | core/common/src/ipc_message_queue.cpp:187-217 | publishing after a drained wrap keeps the system invariant |
| `RingProtocol.SetFlagStep` | core/common/src/ipc_message_queue.cpp:37-42 | the acknowledgement keeps the system invariant, a waiting producer's poll results included |
| `RingProtocol.MoveHeadStep` | core/common/src/ipc_message_queue.cpp:257-279 | moving the head or zeroing it keeps the system invariant |
| `RingProtocol.InvariantStep` | core/common/src/ipc_message_queue.cpp:159-282 | every step of producer and consumer keeps the invariant, given drained wraps |
| `RingProtocol.InvariantAlways` | core/common/src/ipc_message_queue.cpp:159-282 | the invariant holds at the end of every run whose wraps find the queue drained |
| `RingProtocol.DeliveredIsPrefixOfPublished` | core/common/src/ipc_message_queue.cpp:159-282 | in every interleaving with drained wraps the payloads returned by Deque are a prefix of those given to Enqueue, for arbitrary lengths |
| `RingProtocol.RejectedIffAllDelivered` | core/common/src/ipc_message_queue.cpp:229-232 | Deque throws exactly when everything published was delivered, leaving head, rear, count and memory as they were |
| `RingProtocol.FlagsFollowCopies` | core/common/src/ipc_message_queue.cpp:37-42 | with drained wraps a set flag belongs to a message whose payload the consumer has copied out |
| `RingProtocol.OverwrittenWasProcessed` | core/common/src/ipc_message_queue.cpp:187-211 | equal-size messages and earlier wraps drained: every old message that a wrapped write overwrites has its flag set, and the write stays below the first unread message |
| `RingProtocol.WrapsOnlyAfterJoin` | core/common/src/ipc_message_queue.cpp:187-199 | with drained wraps the branch that wraps without a join is never taken |
| `RingEveryRun.WrapAfterJoinFindsFlag` | core/common/src/ipc_message_queue.cpp:187-211 | in every run, whatever the wraps found: a wrapped write goes to the queue start, and after a join the message there has its flag set; without a join no message is counted and the head is there |
| `RingEveryRun.OnlyCopiedMessagesAreFlagged` | core/common/src/ipc_message_queue.cpp:37-42 | in every run: between publications an octet changes only where Deque flags the head's message, after it copied exactly that message's payload |
| `RingEveryRun.EqualSizesOverwriteFirst` | core/common/src/ipc_message_queue.cpp:187-211 | in every run with equal-size messages: a wrapped write overwrites the first message of the lap only, which is flagged if the producer joined |
| `RingEqualSizes.NothingIsTorn` | core/common/src/ipc_message_queue.cpp:159-282 | in every run with equal-size messages over a zeroed region, undrained wraps included: Deque returns nothing but whole published messages or empty payloads |
| `RingProtocol.WrapKeepsLinksIffDrained` | core/common/src/ipc_message_queue.cpp:199-216 | equal-size messages: after a wrapped write the queue is well linked if and only if the queue was drained |
| `RingWrap.UndrainedWrapStrands` | core/common/src/ipc_message_queue.cpp:199-216 | equal-size wrapped write with unread messages: they stay queued, but rear is at the start and the count one higher than the chain can reach |
| `RingWrap.StrandedStep` | core/common/src/ipc_message_queue.cpp:256-265 | each Deque still returns the next old unread message and changes nothing behind the old lap |
| `RingWrap.UndrainedWrapLeadsBehindLap` | core/common/src/ipc_message_queue.cpp:199-265 | once the old messages are gone the head is behind the old lap, one message is still counted, and the octets read there are whatever they were before the wrap |
| `RingFailures.UndrainedWrapBreaksOrder` | core/common/src/ipc_message_queue.cpp:199-265 | a run from the initial state with one undrained wrap: of any four one-octet messages the fourth call of Deque returns an empty payload instead of the fourth, so what is delivered is no prefix of what was published |
| `RingFailures.WrapWithoutJoinLosesMessage` | core/common/src/ipc_message_queue.cpp:189-199 | that run continued: a longer message takes the branch without a join and is about to overwrite the unread, undelivered fourth message |
| `RingFailures.LongerMessageWaitsForever` | core/common/src/ipc_message_queue.cpp:114-157 | in a zeroed region one message and then a longer one that overflows: JoinListener waits in every continuation, whatever Deque does |
| `SharedQueue.Region.InitializeQueue` | core/common/src/ipc_message_queue.cpp:100-112 | the object's state after initialisation is the initial queue over the untouched octets |
| `SharedQueue.Region.PutOnSHM` | core/common/src/ipc_message_queue.cpp:48-88 | writes exactly the message image at the start address, nothing else |
| `SharedQueue.Region.GetFromSHM` | core/common/src/ipc_message_queue.cpp:22-45 | returns the stored payload and sets exactly the flag |
| `SharedQueue.Region.TraversalQueue` | core/common/src/ipc_message_queue.cpp:114-130 | the loop collects the addresses of the traversal |
| `SharedQueue.Region.AnyMessageInProgress` | core/common/src/ipc_message_queue.cpp:132-144 | false exactly when every visited flag is set |
| `SharedQueue.Region.EnqueueUnlessJoining` | core/common/src/ipc_message_queue.cpp:159-220 | for every non-empty lap the region stands for: asks for the join, with the lock released and nothing changed, if and only if queue start, lap and message together reach the region's size, and otherwise appends the message to that lap; into an empty queue it publishes at the start |
| `SharedQueue.Region.EnqueueJoined` | core/common/src/ipc_message_queue.cpp:196-219 | after the join publishes the message at the queue start |
| `SharedQueue.Region.Deque` | core/common/src/ipc_message_queue.cpp:223-282 | throws on an empty queue leaving everything but the lock as it was, else returns the head's payload and leaves the queue with it removed |
| `ShiftRegister.BurstIsDetected` | core/common/src/utils.cpp:31-44 | messages that differ only inside a window no longer than the register leave different registers |
| `ShiftRegister.WordCombinesFirst` | core/common/src/utils.cpp:39-41 | eight steps on an octet are eight steps without input on the register combined with the octet |
| `ChecksumExamples.CheckValue16` | core/common/src/utils.cpp:31-44 | the CRC-16 of the digits 1 to 9 is 0xB4C8 |
| `ChecksumExamples.CheckValue8` | core/common/src/utils.cpp:60-73 | the CRC-8 of the digits 1 to 9 is 0x37 |
| `Crc16.TableReplacesBits16` | core/common/src/utils.cpp:39-41 | the table step equals eight steps of the reflected 0xA001 shift register |
| `Crc16.GenerateCrc16Table` | core/common/src/utils.cpp:19-29 | the nested loops fill entry i with the register after eight steps from i |
| `Crc16.ComputeCrc16` | core/common/src/utils.cpp:31-44 | the table-driven loop returns the bit-by-bit checksum of every octet string |
| `Crc16.Crc16DetectsTwoAdjacentOctets` | core/common/src/utils.cpp:31-44 | equal-length strings that differ only inside two adjacent octets have different checksums |
| `Crc8.TableReplacesBits8` | core/common/src/utils.cpp:68-70 | the table step equals eight steps of the 0x1D shift register |
| `Crc8.GenerateCrc8Table` | core/common/src/utils.cpp:48-58 | the nested loops fill entry i with the register after eight steps from i |
| `Crc8.ComputeCrc8` | core/common/src/utils.cpp:60-73 | the table-driven loop returns the bit-by-bit checksum of every octet string |
| `Crc8.Crc8DetectsOneOctet` | core/common/src/utils.cpp:60-73 | equal-length strings that differ in one octet have different checksums |
| `TcpPool.PlacesConserved` | TCPStreamer/src/TCPStreamer.h:75-93 | no step of listener, workers, consumer or destructor loses or duplicates a buffer |
| `TcpPool.NothingLostOrDuplicated` | TCPStreamer/src/TCPStreamer.h:42-99 | in every interleaving each received buffer is in exactly one of listener, task queue, worker, messages, delivered |
| `TcpPool.StopSequenceDrains` | TCPStreamer/src/TCPStreamer.h:144-166 | after the destructor's stop sequence, with at least one worker, no buffer is left in task_queue_ or with a worker |
| `TcpPool.NobodyLeavesEarly` | TCPStreamer/src/TCPStreamer.h:144-166 | before the destructor is called neither the listener nor a worker returns |
| `TcpPool.NoWorkersLeaveTasks` | TCPStreamer/src/TCPStreamer.h:119-142 | with an empty pool the stop sequence ends with the buffer still queued |
| `TcpPool.PoolStops` | TCPStreamer/src/TCPStreamer.h:87-98 | while the pool stops a worker step is always possible until all have returned, each one is progress and no other step undoes it |
| `TcpPool.StepKeepsLine` | TCPStreamer/src/TCPStreamer.h:87-98 | one worker: delivered, messages, hand, queue and listener stay one line in receive order |
| `TcpPool.OrderedIffOneWorker` | TCPStreamer/src/TCPStreamer.h:87-98 | delivery order is receive order in every interleaving if and only if the pool has at most one worker |
| `TcpFraming.UnframeFrames` | TCPStreamer/src/TCPStreamer.h:43-72 | what is framed is taken apart into exactly the same messages in order; Listen takes streams apart this way |
| `TcpFraming.UnframeStopsAtLimit` | TCPStreamer/src/TCPStreamer.h:50-53 | the first message above 100000000 octets raises bad_alloc after exactly the messages before it, in Listen too |
| `TcpFraming.Publisher.Publish` | TCPStreamer/src/TCPPublisher.h:54-80 | however send splits the payload the stream grows by exactly one frame, and the loop ends |
| `TcpFraming.Publisher.PublishAll` | TCPStreamer/src/TCPPublisher.h:54-80 | a sequence of publishes puts exactly the frames on the stream |
| `TcpFraming.Receiver.ReceiveMessage` | TCPStreamer/src/TCPStreamer.h:43-82 | however recv splits the payload the buffer is exactly the announced octets; it throws for a size above the limit and otherwise waits for octets not yet sent |
| `TcpFraming.Receiver.Listen` | TCPStreamer/src/TCPStreamer.h:42-85 | over any octet stream the queued buffers are exactly the whole frames before the first size above the limit, and bad_alloc is thrown exactly if there is one |
| `Batching.HandleStreamDaemon.DequeNonEmpty` | core/common/src/HandleStreamDaemon.cpp:86-101 | empty messages and exceptions are skipped; the first non-empty message is taken and nothing behind it |
| `Batching.HandleStreamDaemon.ListenSHMQueue` | core/common/src/HandleStreamDaemon.cpp:71-104 | hands over a batch of exactly prefetch_count non-empty messages, the next ones in order |
| `Batching.HandleStreamDaemon.HandleMessages` | core/common/src/exporters.cpp:8-21 | over any number of turns the concatenated batches are the dequeued sequence with empty messages removed |
| `FrameMarshalling.MarshalFrame` | webcam/src/wc_daemon.cpp:25-44 | the successive copies produce the header and pixels at their offsets |
| `FrameMarshalling.FrameLayout` | webcam/src/wc_daemon.cpp:25-44 | columns, rows and type are little-endian numbers of four octets in two's complement, the step one of eight, and the pixels follow at octet 20 |
| `FrameMarshalling.WebcamRoundTrip` | core/common/src/exporters.cpp:38-55 | on the shared-memory path unmarshalling yields cols, rows, type, step and pixels unchanged, negative ints included |
| `FrameMarshalling.TCPFrameProducer.HandleWebcamFrame` | TCPStreamer/src/tcp_producing.cpp:12-87 | publishes packet number, header, pixels and eight zero octets, and counts the packet; an empty frame does neither |
| `FrameMarshalling.StripPacketNumber` | TCPStreamer/src/TCPStreamer.cpp:22-66 | packet number and enqueued message are the received message again, a bare number enqueues nothing, and what HandleWebcamFrame publishes for a frame is enqueued so that it unmarshals to that frame with eight zero octets behind its pixels |
| `FrameMarshalling.TcpRoundTrip` | TCPStreamer/src/TCPStreamer.cpp:22-66 | on the TCP path unmarshalling yields the frame with eight zero octets behind its pixels |
| `FrameMarshalling.UnmarshalMessages` | core/common/src/exporters.cpp:38-55 | every message of the batch is unmarshalled, in order |
| `Playlist.ReadLastSegmentNumber` | core/common/src/exporters.cpp:57-73 | the maximum of the numbers in the file names found, -1 if there are none, or out_of_range exactly if it is beyond int |
| `Playlist.LinesOfJoined` | core/common/src/exporters.cpp:64 | reading line by line gives back the lines that were written |
| `Playlist.FileNameIsFound` | core/common/src/exporters.cpp:60-67 | the pattern finds in output<n>.ts exactly the decimal text of n |
| `PlaylistText.FirstNameIsFound` | core/common/src/exporters.cpp:60-67 | what is found in a line is the number of its leftmost file name, and nothing if it has none |
| `PlaylistText.LastSegmentIsMaximum` | core/common/src/exporters.cpp:57-73 | the number read is the largest one named, or -1 |
| `PlaylistText.ContentIsText` | core/common/src/exporters.cpp:82-116 | the playlist after one more export, letter by letter |
| `Playlist.ReadBack` | core/common/src/exporters.cpp:57-73 | after n exports the number read is n - 1, from the empty playlist on |
| `Playlist.PlaylistFile.Export` | core/common/src/exporters.cpp:82-116 | over any file: throws and leaves it alone exactly if a number is beyond int, else appends one entry, behind a header if the file was empty; over a file of n exports the number is n |
| `Playlist.PlaylistFile.ExportAll` | core/common/src/exporters.cpp:82-116 | up to 2^31 exports leave one header and the entries output0.ts to output(n-1).ts in order |
| `RouteParams.StringTakesSegment` | core/include/crow/crow_all.h:12257-12276 | a string parameter takes exactly the characters up to the next slash or the end, at least one |
| `RouteParams.PathTakesRest` | core/include/crow/crow_all.h:12278-12297 | a path parameter takes the whole non-empty rest |
| `RouteParams.IntTakesInteger` | core/include/crow/crow_all.h:12194-12213 | an int parameter takes an optional sign and as many digits as there are, as the number they write, if it is one of 64 bits, and else nothing |
| `RouteParams.UintTakesInteger` | core/include/crow/crow_all.h:12215-12234 | a uint parameter takes no minus sign and numbers below 2^64 |
| `RouteParams.TextIsInteger` | core/include/crow/crow_all.h:12194-12234 | the decimal text of any number in front of something else is read as that number |
| `RouteParams.RuleTextIsTokenized` | core/include/crow/crow_all.h:12336-12372 | the text of a rule, with its seven tags, is taken apart into its characters and parameter types |
| `RouteParams.SpelledIsHit` | core/include/crow/crow_all.h:12157-12313 | a URL spelled by a rule's characters and arguments matches it, with the arguments in order by type |
| `RouteParams.HitIsSpelled` | core/include/crow/crow_all.h:12157-12313 | whatever matches a rule is spelled by its characters and arguments |
| `UrlMatching.ScanIsBest` | core/include/crow/crow_all.h:12172-12179 | the scan yields the smallest index of a rule that matches the whole URL with that rule's captures, or nothing |
| `UrlMatching.ScanDependsOnSet` | core/include/crow/crow_all.h:12172-12179 | with distinct indices the result depends on the set of rules only |
| `RouteTrie.FindIsScan` | core/include/crow/crow_all.h:12157-12313 | find on any trie equals the scan of the rules stored in it, rule index and captures |
| `RouteTrie.MergedIsSmaller` | core/include/crow/crow_all.h:12081-12089 | folding an only child into its parent removes a node: optimizeNode terminates |
| `RouteTrie.OptimizedKeepsRules` | core/include/crow/crow_all.h:12077-12098 | optimizeNode keeps the rules a node stores and their order |
| `RouteTrie.OptimizeKeepsFind` | core/include/crow/crow_all.h:12067-12098 | find returns the same rule index and captures after optimize, for every URL and every trie |
| `RouteRules.InsertFailsIffStored` | core/include/crow/crow_all.h:12400-12403 | add raises the exception exactly when the pattern has an index already |
| `RouteRules.InsertUpdatesMap` | core/include/crow/crow_all.h:12321-12404 | add changes what is stored under its own pattern and under no other |
| `RouteRules.InsertKeepsUnoptimized` | core/include/crow/crow_all.h:12375-12397 | add keeps one token a node and distinct siblings |
| `RouteRules.RulesAreStored` | core/include/crow/crow_all.h:12321-12404 | the rules in the trie are exactly the entries of the map from patterns to indices |
| `RouteRules.BuildHoldsRules` | core/include/crow/crow_all.h:12321-12404 | a rule set can be added if and only if no pattern occurs twice, and then every rule and no other is stored |
| `RouteRules.TrieIsLinearScan` | core/include/crow/crow_all.h:12157-12404 | for every rule set and URL, find on the optimised trie returns the best matching rule; with distinct indices exactly the linear scan's result with captures |
| `RouteRules.SlashHeadIsBuilt` | core/include/crow/crow_all.h:12149-12154 | when every rule starts with a slash, validate never refuses the trie |
| `Router.Route` | core/include/crow/crow_all.h:12321-12404 | from rule texts to a URL's rule with Crow's parameter readers: refused exactly when a pattern occurs twice or the head is not simple, else the best match, the linear scan's for distinct indices; a rule is returned only if its pieces spell the URL, with their arguments in order, and if some rule's pieces spell the URL, a rule of no larger index is returned |
| `Router.Trie.Add` | core/include/crow/crow_all.h:12321-12404 | the object's head becomes the trie with the rule inserted, or stays and the exception is reported |
| `Router.Trie.Validate` | core/include/crow/crow_all.h:12149-12154 | refuses a head that is not simple, else optimises |
| `Router.Trie.Optimize` | core/include/crow/crow_all.h:12067-12073 | the loop over the head's children optimises each of them |
| `Router.Trie.FindUrl` | core/include/crow/crow_all.h:12315-12318 | find from the start of the URL on the current head |
| `Router.Search.Go` | core/include/crow/crow_all.h:12157-12313 | the search that pushes and pops captures on a shared record finds what find finds and leaves the record as it was |
| `JsonText.EscapeOnto` | core/include/crow/crow_all.h:5247-5279 | the loop appends the escaped text of the whole string |
| `JsonText.EscapeRoundTrip` | core/include/crow/crow_all.h:5687-5749 | unescape undoes escape for every byte string |
| `JsonText.StringEndOfEscaped` | core/include/crow/crow_all.h:6108-6166 | the scan for the closing quote passes over every escaped string and stops at its quote |
| `JsonText.StringEndWellEscaped` | core/include/crow/crow_all.h:6134-6163 | what the scan accepts consists of complete escapes, so unescape never runs past its end |
| `JsonText.PlainIsUnescaped` | core/include/crow/crow_all.h:6122-6137 | without a backslash unescaping changes nothing, which is what the has_escaping flag relies on |
| `JsonText.UnescapedNotLonger` | core/include/crow/crow_all.h:5694-5745 | unescaped text is never longer than its source, so the write index stays behind the read index |
| `JsonNumber.DecodeNumber` | core/include/crow/crow_all.h:6208-6332 | the table-driven loop with its inner digit loop ends where the state machine over single characters ends |
| `JsonNumber.IntegerIsScanned` | core/include/crow/crow_all.h:6208-6332 | a printed integer is scanned exactly to its end |
| `Decimal.ValueOfText` | core/include/crow/crow_all.h:7109-7116 | reading the printed decimal text of an integer gives the integer back |
| `JsonTree.StringRoundTrip` | core/include/crow/crow_all.h:7033-7038 | parsing a printed string gives the string back |
| `JsonTree.ValueRoundTrip` | core/include/crow/crow_all.h:6335-6387 | a printed value anywhere in a text parses to itself and ends where it was printed, or fails exactly when it is nested too deeply for the depth left |
| `JsonTree.FitsIffNesting` | core/include/crow/crow_all.h:6084 | the parser's depth limit of 10000 admits exactly 5000 levels, two counts a level |
| `JsonTree.DumpParseRoundTrip` | core/include/crow/crow_all.h:7040-7165 | parsing what was printed returns the same tree if and only if nesting is at most 5000, and an error otherwise |
| `JsonGrammar.NumberEndIsGrammar` | core/include/crow/crow_all.h:6208-6332 | the number machine stops exactly behind a sign, digits without a leading zero, a point with any digits and an exponent that begins with a sign or a digit, where no character of a number follows |
| `JsonStandard.NumberIsStandard` | core/include/crow/crow_all.h:6208-6332 | the numbers that are accepted and have a digit behind every point and sign are exactly those of RFC 8259 without an exponent directly behind a single zero |
| `JsonStandard.PointAtTheEndIsAccepted` | core/include/crow/crow_all.h:6275-6285 | 1. is accepted, which is no number of RFC 8259 |
| `JsonStandard.ZeroWithExponentIsRefused` | core/include/crow/crow_all.h:6308-6327 | 0e5 is refused, which is one |
| `JsonStandard.PieceIsStandard` | core/include/crow/crow_all.h:6108-6166 | a character or escape of a string is accepted exactly as RFC 8259 has it, and control characters other than NUL besides |
| `JsonGrammar.PieceIsPiece` | core/include/crow/crow_all.h:5693-5745 | a backslash escape is one of nine, read as the character it means, four hexadecimal digits as their value; any other character but quote and NUL stands for itself |
| `JsonGrammar.CodeBytesAreUtf8` | core/include/crow/crow_all.h:5717-5738 | the octets of a \u escape are the UTF-8 form of its value |
| `JsonGrammar.Utf8IsUnique` | core/include/crow/crow_all.h:5717-5738 | those octets decode to that value only |
| `JsonGrammar.ValueIsParsed` | core/include/crow/crow_all.h:6168-6450 | any text of a value, with any white space between its tokens, is parsed to that value and exactly to its end |
| `JsonGrammar.ParsedIsValue` | core/include/crow/crow_all.h:6168-6450 | whatever is parsed is a text of the value |
| `JsonGrammar.ParseIsGrammar` | core/include/crow/crow_all.h:6452-6460 | a text is parsed to a tree if and only if it is a document of the grammar for that tree, white space and nothing else around it, with at most 5000 levels |
| `JsonParser.Unescape` | core/include/crow/crow_all.h:5687-5749 | in place: the window up to the new end becomes the unescaped string, octets outside it stay, and a second call changes nothing |
| `JsonParser.ReadsSame` | core/include/crow/crow_all.h:5527-5531 | a parsed value depends on the octets of its own window only, and items and fields have disjoint windows |
| `JsonParser.Parser.DecodeString` | core/include/crow/crow_all.h:6108-6166 | finds the string the specification parses and leaves its octets to be unescaped later, touching only its two quotes |
| `JsonParser.Parser.DecodeList` | core/include/crow/crow_all.h:6168-6206 | the in-place list loop reads exactly the items the specification parses, in consecutive windows, or fails with it |
| `JsonParser.Parser.DecodeObject` | core/include/crow/crow_all.h:6389-6450 | the in-place object loop, with keys unescaped at once, reads exactly the fields the specification parses, in consecutive windows, or fails with it |
| `JsonParser.Parser.DecodeValue` | core/include/crow/crow_all.h:6335-6387 | every kind of value is read as the specification parses it |
| `JsonParser.Parser.Parse` | core/include/crow/crow_all.h:6452-6460 | the in-place parser succeeds exactly on the documents of the JSON grammar with at most 5000 levels, and its offsets then stand for the tree the grammar gives the text |
| `JsonReader.ItemReplaced` | core/include/crow/crow_all.h:5687-5749 | whatever happens inside the window of one item leaves what every other item stands for |
| `JsonReader.ReadString` | core/include/crow/crow_all.h:5648-5656 | s() of any string of the document, in any order: the string is the tree's, and the buffer still stands for the whole tree |
| `JsonReader.Written` | core/include/crow/crow_all.h:6609-6647 | a wvalue from an rvalue: reading the whole document out of the buffer, unescaping on the way, gives exactly the tree it stands for |
| `JsonReader.LoadWritten` | core/include/crow/crow_all.h:6466-6477 | load and reading out give exactly the tree that the JSON grammar gives the text, and nothing for every other text |
| `JsonReader.LoadDumped` | core/include/crow/crow_all.h:6466-6477 | printing a tree, loading the text and reading it out of the buffer gives the tree back if and only if nesting is at most 5000 |
| `JsonWriter.DumpInternal` | core/include/crow/crow_all.h:7040-7165 | the printer's loops append exactly the printed tree |
| `NetworkOrder.Swapped64IsBigEndian` | core/include/crow/crow_all.h:9831 | the 64-bit length built from two 32-bit swaps is the big-endian one |
| `WebSocketFrames.HeaderMakesFrame` | core/include/crow/crow_all.h:9813-9834 | build_header in front of a payload is a well-formed final frame with the shortest length form |
| `WebSocketFrames.UnmaskMasked` | core/include/crow/crow_all.h:10125-10131 | masking twice with the same key is the identity |
| `WebSocketReader.FrameStep` | core/include/crow/crow_all.h:9864-10105 | each completed read moves exactly one part further into the same frame, or completes it and handles its unmasked payload |
| `WebSocketReader.ReadBetween` | core/include/crow/crow_all.h:9864-10105 | for every well-formed frame sequence and every split of payload reads the handlers are called as if frame by frame |
| `WebSocketMessages.ControlsAreAnswered` | core/include/crow/crow_all.h:10187-10196 | pings and pongs between fragments leave the message being collected alone and are answered in place |
| `WebSocketMessages.MessageIsDelivered` | core/include/crow/crow_all.h:10132-10168 | a fragmented message is handed over once, behind its final fragment, as the concatenated payloads with the first fragment's type |
| `WebSocketMessages.HandlersGetTheMessages` | core/include/crow/crow_all.h:9864-10202 | whatever masks, length forms, fragmentation, interleaved control frames and read splits, the handlers get exactly the messages, each once and in order |
| `WebSocketWire.XorIsBitwise` | core/include/crow/crow_all.h:10129 | the octet that unmasking gives has a bit set exactly when one operand has it |
| `WebSocketWire.WireIsOnWire` | core/include/crow/crow_all.h:9813-9834 | the octets of a frame are the bits, lengths and masked payload of section 5.2 of RFC 6455 and no others |
| `WebSocketWire.EveryFrameIsRead` | core/include/crow/crow_all.h:9864-10105 | the reads that are asked for bring every frame within the length limit to its end |
| `WebSocketWire.WireMessagesAreDelivered` | core/include/crow/crow_all.h:9864-10202 | octets that are frames bit by bit, masked octet by octet: however they are cut into reads, the handlers get exactly the messages and the answers between them |
| `WebSocketWire.TooLongIsRefused` | core/include/crow/crow_all.h:10016-10024 | a length above the limit is reported as soon as it is read and ends the connection |
| `WebSocketWire.CloseIsAnsweredOnce` | core/include/crow/crow_all.h:10169-10190 | a close frame is answered unless it is an answer itself, and nothing behind it is handled |
| `WebSocketWire.UnknownIsDropped` | core/include/crow/crow_all.h:10132-10200 | frames with other opcodes are dropped |
| `WebSocketConnection.Connection.OnRead` | core/include/crow/crow_all.h:9864-10105 | the object's handler of a completed read updates its fields and calls handlers as the reader step says |
| `WebSocketConnection.Connection.HandleFragment` | core/include/crow/crow_all.h:10123-10202 | unmasks in place, acts on the opcode and starts over |
| `WebSocketConnection.Connection.Unmask` | core/include/crow/crow_all.h:10125-10131 | the loop unmasks the whole fragment |
| `HttpBody.RunConcat` | core/include/crow/crow_all.h:3595-4731 | feeding two buffers is feeding their concatenation |
| `HttpBody.StepKeepsInvariant` | core/include/crow/crow_all.h:4608-4724 | the parser's own assertions hold after every octet, and a hex digit is accumulated without wrapping |
| `HttpBody.InvariantAlways` | core/include/crow/crow_all.h:4608-4724 | for any input the length accumulator stays below ULLONG_MAX and the assertions hold |
| `HttpBody.IdentityBody` | core/include/crow/crow_all.h:4561-4606 | a body of n octets: exactly those are delivered, message_complete fires with the last one, and again for every further octet executed |
| `HttpBody.EmptyBody` | core/include/crow/crow_all.h:4489-4556 | without a body the message is complete behind the headers and again for every further line feed; any other octet is refused |
| `HttpBody.LengthIsExact` | core/include/crow/crow_all.h:4240-4268 | the decimal text of a Content-Length is accepted exactly up to 18446744073709551609 and then read as its value |
| `HttpChunks.HexTextIsRead` | core/include/crow/crow_all.h:3526-3535 | hexadecimal text in any mixture of cases is read as its value, and no other octet is a digit |
| `HttpChunks.RunSizeLine` | core/include/crow/crow_all.h:4608-4686 | a size line with any extension leaves the value of its hexadecimal text and the right next state |
| `HttpChunks.RunChunk` | core/include/crow/crow_all.h:4608-4724 | one chunk delivers exactly its data and returns to the next size line |
| `HttpChunks.ChunkedBody` | core/include/crow/crow_all.h:4418-4425 | a chunked body delivers exactly the decoded data; message_complete fires once, with the final line feed and not before |
| `HttpChunks.NotCompleteEarlier` | core/include/crow/crow_all.h:4608-4724 | no shorter part of the input has more completions than the whole |
| `HttpGrammar.StepKeepsShape` | core/include/crow/crow_all.h:4608-4724 | an octet that is not refused extends a beginning of a chunked message to a longer one |
| `HttpGrammar.AcceptedIsBeginning` | core/include/crow/crow_all.h:4608-4724 | what the parser does not refuse is the beginning of a well-formed chunked message, with exactly its data delivered |
| `HttpGrammar.CompletedIsMessage` | core/include/crow/crow_all.h:4418-4425 | when message_complete fires, the octets are one whole chunked message |
| `HttpParser.RunBody` | core/include/crow/crow_all.h:4561-4594 | taking many body octets at once equals taking them one by one |
| `HttpParser.HttpParser.Execute` | core/include/crow/crow_all.h:3595-4754 | the buffer-at-a-time loop with its body mark ends in the state, error and reported body of the octet-at-a-time machine; only an octet refused behind chunk data leaves marked data unreported |
| `HttpParser.IdentityIsReceived` | core/include/crow/crow_all.h:4961-4982 | however the octets of a connection are cut into buffers: a body of n octets is delivered as the next n octets, and complete exactly when they are there |
| `HttpParser.ChunksAreReceived` | core/include/crow/crow_all.h:4961-4982 | however cut: a chunked message is delivered as its decoded data with one completion |
| `HttpParser.HttpParser.Feed` | core/include/crow/crow_all.h:4961-4982 | a parser whose message is complete takes no more buffers; otherwise a buffer is executed and true means it was not refused |
| `HttpParser.HttpParser.FeedAll` | core/include/crow/crow_all.h:4961-4982 | the buffers of a connection one after the other: the object follows the octets up to completion or refusal, and receives both kinds of body as the two lemmas say |
| `Sha1.SHA1.ProcessByte` | core/include/crow/crow_all.h:818-826 | an octet is buffered, or completes a block that is then folded into the digest |
| `Sha1.SHA1.ProcessBytes` | core/include/crow/crow_all.h:827-840 | however the message is cut into pieces, the digest is the fold over completed blocks and the remainder is buffered |
| `Sha1.SHA1.ProcessBlock` | core/include/crow/crow_all.h:900-948 | the loops over w and the rounds compute section 6.1.2's hash computation of the block |
| `Sha1.SHA1.GetDigest` | core/include/crow/crow_all.h:841-867 | pads with the code's padding and returns the digest; the standard's digest for messages below 2^29 octets |
| `Sha1.SHA1.GetDigestBytes` | core/include/crow/crow_all.h:868-897 | the 20 octets of the digest, most significant first |
| `Sha1.PaddingIsStandard` | core/include/crow/crow_all.h:841-863 | the padding is section 5.1.1's if and only if the message is below 2^29 octets |
| `Sha1.DigestIsStandard` | core/include/crow/crow_all.h:841-867 | for every message below 2^29 octets the result is the digest of FIPS 180-4 |
| `Sha1.FieldIsStandard` | core/include/crow/crow_all.h:856-863 | the length field written from the low 32 bits is the 64-bit one if and only if the bit count fits |
| `Sha1Example.DigestOfAbc` | core/include/crow/crow_all.h:900-948 | the digest of the octets abc is the one of the standard's example |
| `Sha1Example.ConstantsAreRoots` | core/include/crow/crow_all.h:922-934 | the round constants are the square roots of 2, 3, 5 and 10 |
| `Base64.RoundTrip` | core/include/crow/crow_all.h:1761-1885 | decoding an encoding gives back every non-empty octet string, in both alphabets, also after the padding is stripped |
| `Base64.EncodedGroups` | core/include/crow/crow_all.h:1761-1795 | each group of the text is the same 24-bit number as its three octets, in the letters of the alphabet, with padding for what is beyond the data |
| `Base64.KeyOfCharacter` | core/include/crow/crow_all.h:1796-1811 | a character of either alphabet has its own value, every other one 0 |
| `Base64.CodersAreInverse` | core/include/crow/crow_all.h:1766-1880 | each group of four characters decodes to the three octets it encodes, and its later characters are never padding |
| `Base64.Base64Encode` | core/include/crow/crow_all.h:1761-1795 | the loop fills the result with exactly the encoding |
| `Base64.Base64Decode` | core/include/crow/crow_all.h:1812-1885 | the loop decodes exactly the octets the computed size announces |
| `WebSocketHandshake.GuidIsText` | core/include/crow/crow_all.h:9694 | the octets behind the key are those of the standard's text |
| `WebSocketHandshake.AcceptKey` | core/include/crow/crow_all.h:9692-9699 | the answer to an opening handshake is the base64 text of the SHA-1 digest of key and GUID, and decodes to that digest |
| `MustacheParse.AddTagKeepsNested` | core/include/crow/crow_all.h:11054-11094 | each tag keeps blocks and closes pointing at each other without crossing |
| `MustacheParse.Parse` | core/include/crow/crow_all.h:11021-11175 | parse succeeds exactly when every close fits the innermost open block; if all blocks close, blocks and closes are properly nested and point at each other |
| `MustacheRender.TreeIsLaidOut` | core/include/crow/crow_all.h:11054-11094 | every well-nested template is a tree of blocks laid out along the pointers |
| `MustacheRender.EnterBlock` | core/include/crow/crow_all.h:10925-10930 | going into a block means its body, its close and then what follows, with one context more on the stack until the close |
| `MustacheRender.Renderer.RenderInternal` | core/include/crow/crow_all.h:10806-10951 | the jumping loop terminates, writes the text the remaining blocks mean and restores the stack, unless it throws |
| `MustacheRender.Renderer.RenderEach` | core/include/crow/crow_all.h:10915-10924 | a list block renders its body once for each item with the item on top, and leaves the stack as it was |
| `MustacheRender.Render` | core/include/crow/crow_all.h:10981-10989 | rendering a template whose blocks all close ends, means its block tree, and unless it throws leaves the stack with the context alone |
| `MustacheLookup.SearchFindsOnStack` | core/include/crow/crow_all.h:10697-10760 | a lookup finds the topmost stack entry that has the name, or only the top one where that is asked for |
| `MustacheText.NameIsFound` | core/include/crow/crow_all.h:10697-10760 | the dot is the top of the stack; any other name is taken apart at its dots and is found from the topmost entry where every part leads to a member, tried on the top alone in an object's block if dotted |
| `MustacheText.TagIsLookedUp` | core/include/crow/crow_all.h:10782-10804 | when a tag counts as standing in an object's block: the top is an object and some open tag in front has as many opens as closes behind it |
| `MustacheText.TagIsWritten` | core/include/crow/crow_all.h:10831-10872 | a tag writes true, false, a number's text or a string: as it is, or with the eight special characters as entities and none of them raw; other values throw |
| `MustacheText.HtmlTextIsUnique` | core/include/crow/crow_all.h:10762-10780 | an escaped text decodes to one string only |
| `MustacheText.BlockOrInverse` | core/include/crow/crow_all.h:10874-10940 | a block whose context is missing, null, false or an empty list is left out and its inverse goes in with null on the stack; otherwise the inverse is left out and the block goes in with its context |
| `MustacheText.BlockOverList` | core/include/crow/crow_all.h:10913-10923 | a block over a list is its inside once for each item, in order |
| `MustacheText.InsideInOrder` | core/include/crow/crow_all.h:10806-10951 | the inside of a block is its nodes in order and the text in front of its close |
| `MustacheLookup.RenderString` | core/include/crow/crow_all.h:11008-11020 | parsing and rendering a template with the original's lookup: the text is what the block tree means |

## Left out

- RingProtocol.DeliveredIsPrefixOfPublished: says nothing about runs in which a wrap finds unread messages, because order is lost there; RingWrap says what happens instead.
- RingJoin.JoinProtectsUnread: covers writes that destroy at most two old messages; a third one is not waited for (RingJoin.ThirdIsNotProtected), and whether JoinListener ends at all for a message longer than the lap depends on the octets behind it.
- RingProtocol.FlagsFollowCopies: is about states reached by drained wraps; RingEveryRun.OnlyCopiedMessagesAreFlagged is about every run.
- RingProtocol.OverwrittenWasProcessed: is about states reached by drained wraps; for every run RingEveryRun.EqualSizesOverwriteFirst says which message is overwritten, but nothing about later messages that an undrained wrap left unread and that are then overwritten without a join.
- RingEqualSizes.NothingIsTorn: an empty payload may be delivered and a message may be lost or come late; a read of a header outside the region is a step that cannot happen.
- SharedQueue.Region.EnqueueUnlessJoining: the one millisecond sleeps of JoinListener and the spinning of the lock are steps of RingProtocol, not of the object.
- TcpFraming.Receiver.Listen: the eight size octets are transferred whole, the socket reports no error and a stream that ends is one whose rest is still to come; on an error in the middle of a message the original queues a partly filled buffer.
- Batching.HandleStreamDaemon.ListenSHMQueue: the 100 millisecond polling for a message count is left out; an early call of Deque is an exception, which is retried.
- FrameMarshalling.UnmarshalMessages: a message shorter than its header is excluded; the original then computes a negative size.
- Playlist.PlaylistFile.Export: a file whose last number is the largest int is excluded, because the original then overflows an int; the duration is any text without a line end or the letter o, which every printed number is; video encoding and its errors are not part of this model.
- Playlist.ReadLastSegmentNumber: lines are split by a function instead of a file stream.
- Router.Search.Go: blueprint indices are left out: the original pops them even when nothing was pushed.
- Router.Trie.Add: every '<' of a rule starts a known tag (the original does not get past another one), and a rule holds no NUL character, which would select a parameter node.
- JsonTree.DumpParseRoundTrip: floating point numbers and function values are not printed; object members are a sequence, whatever order the original's map has.
- JsonReader.Written: members stay a sequence, where the original's map keeps the first of repeated keys, and numbers keep their text.
- JsonParser.Unescape: a copy of a value shares the buffer but keeps its own end, so that unescaping one copy shortens the text under the other; copies are not modelled.
- WebSocketConnection.Connection.OnRead: headers arrive whole, the close handler runs at once, and errors of the socket, the enforcement of client masks and the sending side's buffers are left out.
- HttpBody.InvariantAlways: the body read until the connection closes, trailer fields, upgrades, skipped bodies and callbacks that fail or pause the parser are left out; a trailer field leads to a state that is not followed further.
- HttpParser.HttpParser.Execute: when the octet behind chunk data is refused, how much of the data marked in the same buffer is lost is not said, only that what was reported is a beginning of the body.
- Base64.RoundTrip: the empty string is left out; decoding it reads in front of its buffer.
- MustacheParse.Parse: a template is the list of its tags, so delimiters, tag syntax and the removal of standalone lines are left out; an unclosed block keeps position 0 and is reported in `open`.
- MustacheRender.Render: partials, indentation and function values are left out.
- MustacheLookup.RenderString: a template with an unclosed block is excluded.
- WebSocketHandshake.AcceptKey: the rest of the upgrade request and response is left out.
- The request line and header states of the HTTP parser, except the digits of Content-Length.
- Shared memory regions, semaphores, the handshake between daemons, signals, processes and logging: calls into the operating system.
- OpenCV capture and encoding, zlib (the compressed TCP branches), sockets and asio themselves.
- Crow's middleware, sessions, cookies, SSL and connection lifetime; the HTTP file serving and the command lines.
- The shared memory registry and argument parsing: only easy facts about maps.
- The value of a JSON number with a fraction or an exponent, and what `strtod` reads of a URL.
- Reads of the record fields that the original does with relaxed memory order are sequentially consistent steps here.
