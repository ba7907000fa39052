# uHAL packing core, ControlHub framing, URI grammar, node claiming and perf-suite runner in Dafny

This project models, in Dafny, the client-side core of uHAL, the IPbus
hardware access library. It proves properties of that model. It covers five
parts of the repository:

- **The packing protocol** (`ProtocolInterfaces.cpp`).
  - `Buffers` is a fixed-size send buffer with a fill counter, reply slots and pending result holders.
  - `PackingProtocol` turns register operations (byte-order, write, read, signed read, RMW bits, RMW sum, reserved-address info, block write, block read) into IPbus transactions.
  - `checkBufferSpace` decides between granting the request, granting the free space, or dispatching and starting a fresh buffer.
  - Block operations are cut into chunks.
  - `Validate` walks the send bytes and the reply slots in lockstep.
  - Files: `protocol_interfaces.dfy` (classes and methods), `packet_layout.dfy` (the transaction layout and the validation walk as functions), `ipbus.dfy` (transaction types, header fields, validation step sizes), `words.dfy` (word images, byte order, `uint32_t`/`int32_t` conversions).
- **The ControlHub framing layer** (`ProtocolControlHub.hxx`), in `control_hub.dfy`.
  - The 12-byte send preamble and the 16 bytes of reply preamble slots.
  - The back-patching of the byte and word counts in `predispatch`.
  - The FIFO of preamble records.
  - The checks of the reply preamble in `validate`.
- **The URI grammar and its printers** (`URLGrammar.cpp`), in `url_grammar.dfy`.
  - The Spirit rules become recursive functions over strings, with hard expectation failures kept apart from soft non-matches.
  - The stream operator and the log inserter become methods that append to a text, one insertion at a time.
- **Node claiming** (`HwInterface.cpp`), in `hw_interface.dfy`: `claimNode` and the two constructors, over a class tree of nodes.
- **The perf-suite command runner** (`ipbus_perf_suite.py`), in `perf_suite.dfy`.
  - The `sudo` rewrite and the PerfTester command line.
  - The local read loop with its hard timeout, run over a trace of read events.
  - Exit-code classification, the remote output join, and the two error texts.

`wrappers.dfy` holds the `Option`/`Result` types. The main results:

- **Layout matches the walk.** The bytes and reply slots each packing operation emits are exactly what `Validate` skips. On such a packet the walk stays in bounds and accepts exactly when every reply header answers its request (`PacketLayout.EmittedLayoutValidates`).
- **Space check.** `checkBufferSpace` has the three outcomes of the source (`ProtocolInterfaces.Decide`).
- **Block chunking.** Chunks carry the source words in order, at the right addresses, and their word counts add up to the block.
- **ControlHub.** The preamble as patched reads back the byte count, IP address, port and word count. The reply checks run in the source's order, and every path pops exactly one preamble record.
- **URIs.** Every URI the grammar can produce is read back from its text (`UrlGrammar.RoundTrip`). Everything the grammar reads is such a URI (`UrlGrammar.ParseSound`).
- **Node claiming.** After `claimNode`, every node of the subtree points at the interface.
- **Perf suite.** The read loop's result equals a declarative first-stop definition. A timeout happens only on a quiet poll past 240 seconds, and the process group is killed just before it.

Two behaviours of the perf suite's `run_command` are easy to miss, and the model keeps both:

- **Missing exit code.** The suite treats an exit code of `None` (a process that `poll()` still finds running after the end of its output) as success, because only a truthy code raises (`PerfSuite.ExitStatus`).
- **Timeout check.** The local loop looks at the clock only when a read finds no data, so a command that always has output ready is never timed out (`PerfSuite.ChattyCommandNeverTimesOut`).

## Model

| member | source | states |
|---|---|---|
| Words.WordBytes | uhal/uhal/src/common/ProtocolInterfaces.cpp:406-408 | the memory image `send` copies for a 32-bit word is four bytes |
| Words.WordRoundTrip | uhal/uhal/src/common/ProtocolInterfaces.cpp:258 | reading a word back through `*(uint32_t*)` gives the word that was sent |
| Words.WordBytesOfWordAt | uhal/uhal/src/common/ProtocolInterfaces.cpp:264 | the word read from a reply slot is the image of the slot's first four bytes |
| Words.HalfBytes | cactuscore/uhal/uhal/include/uhal/TemplateDefinitions/ProtocolControlHub.hxx:92-93 | the memory image `send` copies for a 16-bit value is two bytes |
| Words.HalfBytesOfHalfAt | cactuscore/uhal/uhal/include/uhal/TemplateDefinitions/ProtocolControlHub.hxx:143 | the 16-bit value read from a reply slot is the image of its first two bytes |
| Words.HalfRoundTrip | cactuscore/uhal/uhal/include/uhal/TemplateDefinitions/ProtocolControlHub.hxx:92 | reading back a sent 16-bit value gives the value |
| Words.HtonlImage | cactuscore/uhal/uhal/include/uhal/TemplateDefinitions/ProtocolControlHub.hxx:56 | the image of `htonl(x)` is `x` in network (big-endian) byte order |
| Words.HtonsImage | cactuscore/uhal/uhal/include/uhal/TemplateDefinitions/ProtocolControlHub.hxx:57 | the image of `htons(x)` is `x` in network byte order |
| Words.HtonlInvolution | cactuscore/uhal/uhal/include/uhal/TemplateDefinitions/ProtocolControlHub.hxx:56 | converting twice gives the value back |
| Words.ToUnsigned | uhal/uhal/src/common/ProtocolInterfaces.cpp:754 | `static_cast<uint32_t>` of an `int32_t` is the value itself when non-negative and the value plus 2^32 otherwise |
| Words.Wrap32 | uhal/uhal/src/common/ProtocolInterfaces.cpp:460 | `uint32_t` addition keeps the low 32 bits and leaves values in range unchanged |
| IPbus.TypeCode | uhal/uhal/src/common/ProtocolInterfaces.cpp:290-310 | each of the eight transaction types has its own code below 8 |
| IPbus.TypeOfCode | uhal/uhal/src/common/ProtocolInterfaces.cpp:258-262 | a type field decodes exactly when it is below 8, and to the type with that code |
| IPbus.DecodeEncode | uhal/uhal/src/common/ProtocolInterfaces.cpp:258-268 | extracting a calculated header gives back its type, word count, id and info code |
| IPbus.EncodeDecode | uhal/uhal/src/common/ProtocolInterfaces.cpp:258-268 | every header word that extracts is the calculation of the header it extracts to |
| IPbus.SendStep | uhal/uhal/src/common/ProtocolInterfaces.cpp:290-310 | the send pointer advances by a positive whole number of words |
| IPbus.ReplyStep | uhal/uhal/src/common/ProtocolInterfaces.cpp:312-326 | the reply cursor advances by one or two slots |
| PacketLayout.Image | uhal/uhal/src/common/ProtocolInterfaces.cpp:290-310 | a transaction's send bytes are exactly as many as Validate skips for its header |
| PacketLayout.BotTxn | uhal/uhal/src/common/ProtocolInterfaces.cpp:369-379 | B_O_T: 4 bytes sent, one 4-byte reply slot |
| PacketLayout.WriteTxn | uhal/uhal/src/common/ProtocolInterfaces.cpp:399-411 | write: 12 bytes sent, 4 reply bytes |
| PacketLayout.ReadTxn | uhal/uhal/src/common/ProtocolInterfaces.cpp:489-503 | read: 8 bytes sent, 8 reply bytes |
| PacketLayout.RmwBitsTxn | uhal/uhal/src/common/ProtocolInterfaces.cpp:705-721 | rmw_bits: 16 bytes sent, 8 reply bytes |
| PacketLayout.RmwSumTxn | uhal/uhal/src/common/ProtocolInterfaces.cpp:744-759 | rmw_sum: 12 bytes sent, 8 reply bytes |
| PacketLayout.ReservedAddressInfoTxn | uhal/uhal/src/common/ProtocolInterfaces.cpp:666-681 | readReservedAddressInfo: 4 bytes sent, 12 reply bytes |
| PacketLayout.WordsImage | uhal/uhal/src/common/ProtocolInterfaces.cpp:454 | the image of a run of words is four bytes per word |
| PacketLayout.WriteChunkTxn | uhal/uhal/src/common/ProtocolInterfaces.cpp:452-465 | a block-write chunk sends its 8-byte header and address plus 4 bytes per word, and expects a 4-byte reply header |
| PacketLayout.ReadChunkTxn | uhal/uhal/src/common/ProtocolInterfaces.cpp:542-546 | a block-read chunk sends 8 bytes and expects a 4-byte header plus 4 bytes per word |
| PacketLayout.EmittedLayoutValidates | uhal/uhal/src/common/ProtocolInterfaces.cpp:256-330 | on a packet of emitted transactions whose slots the transport filled, the walk stays in bounds and accepts exactly when every transaction's reply header answers its request |
| PacketLayout.ChunkPayload | uhal/uhal/src/common/ProtocolInterfaces.cpp:447 | `(granted - header) & 0xFFFFFFFC` is a multiple of 4 that fits the grant with the header and leaves less than a word unused |
| PacketLayout.AsInt32 | uhal/uhal/src/common/ProtocolInterfaces.cpp:440 | the `int32_t` conversion agrees with the value modulo 2^32 |
| PacketLayout.PayloadByteCountAsWritten | uhal/uhal/src/common/ProtocolInterfaces.cpp:440 | the `int32_t` count `n << 2` agrees with `4 * n` modulo 2^32, and equals it below 2^29 words |
| PacketLayout.PayloadByteCountWraps | uhal/uhal/src/common/ProtocolInterfaces.cpp:440 | 2^29 words give a negative count and 2^30 + 1 words give a count of 4 |
| PacketLayout.RequestsMembers | uhal/uhal/src/common/ProtocolInterfaces.cpp:362-380 | the requests of a stream are exactly its transactions other than byte-order ones |
| ProtocolInterfaces.ValMem.constructor | uhal/uhal/src/common/ProtocolInterfaces.cpp:409-410 | a fresh holder has its kind and is not yet valid |
| ProtocolInterfaces.Buffers.constructor | uhal/uhal/src/common/ProtocolInterfaces.cpp:7-17 | a new buffer has a send array of the maximum send size, nothing sent, no reply slots and no holders |
| ProtocolInterfaces.Buffers.Send | uhal/uhal/src/common/ProtocolInterfaces.cpp:43-51 | copies the data at the send counter, returns that start, adds exactly its size to the counter, keeps the earlier bytes |
| ProtocolInterfaces.Buffers.Receive | uhal/uhal/src/common/ProtocolInterfaces.cpp:54-60 | appends the slot at the back and adds its size to the reply counter |
| ProtocolInterfaces.Buffers.Add | uhal/uhal/src/common/ProtocolInterfaces.cpp:62-100 | pushes the holder onto the deque of its own kind and leaves the other four deques alone |
| ProtocolInterfaces.Buffers.MarkValid | uhal/uhal/src/common/ProtocolInterfaces.cpp:113-139 | every registered holder of every kind becomes valid |
| ProtocolInterfaces.MarkAll | uhal/uhal/src/common/ProtocolInterfaces.cpp:115-118 | one deque's loop marks each of its holders valid |
| ProtocolInterfaces.Transport.Dispatch | uhal/uhal/src/common/ProtocolInterfaces.cpp:232 | the transport receives the buffer, after those it received before |
| ProtocolInterfaces.Transport.Flush | uhal/uhal/src/common/ProtocolInterfaces.cpp:234 | each flush is counted |
| ProtocolInterfaces.ChunkOfGrant | uhal/uhal/src/common/ProtocolInterfaces.cpp:444-456 | a grant yields a chunk of at least one and at most the remaining words that fits the grant with the header, and all of them when the grant is the request |
| ProtocolInterfaces.Decide | uhal/uhal/src/common/ProtocolInterfaces.cpp:783-815 | exactly the request when it fits; else all free space when both sides have more than 16 free; else a dispatch and the request or the fresh buffer's free space; never more than is free |
| ProtocolInterfaces.ChunkAddressStep | uhal/uhal/src/common/ProtocolInterfaces.cpp:458-461 | advancing the address chunk by chunk (INCREMENTAL only, wrapping in `uint32_t`) reaches the address of the words' position in the block |
| ProtocolInterfaces.ReadChunksSnoc | uhal/uhal/src/common/ProtocolInterfaces.cpp:538-554 | one more read chunk at the address after the words already read extends the chunk list and its word total |
| ProtocolInterfaces.WriteChunksSnoc | uhal/uhal/src/common/ProtocolInterfaces.cpp:444-466 | one more write chunk carrying the next source words extends the chunk list and its word total |
| ProtocolInterfaces.PayloadDone | uhal/uhal/src/common/ProtocolInterfaces.cpp:444 | the chunk loop stops exactly when every word has been packed |
| ProtocolInterfaces.NextId | uhal/uhal/src/common/ProtocolInterfaces.cpp:376 | each calculated header takes the next transaction id: ids count up and wrap to 0 after the largest |
| ProtocolInterfaces.PackingProtocol.constructor | uhal/uhal/src/common/ProtocolInterfaces.cpp:180-190 | keeps both maximum sizes and starts with no current buffer and nothing dispatched |
| ProtocolInterfaces.PackingProtocol.CalculateHeader | uhal/uhal/src/common/ProtocolInterfaces.cpp:376 | the header of the next transaction carries its type and word count and takes the next id |
| ProtocolInterfaces.PackingProtocol.CheckBufferSpace | uhal/uhal/src/common/ProtocolInterfaces.cpp:773-822 | creates and preambles a missing buffer; the grant and whether the buffer was dispatched are those of `Decide`; the grant fits the current buffer; the old buffer went to the transport exactly when a packet was closed |
| ProtocolInterfaces.PackingProtocol.Renew | uhal/uhal/src/common/ProtocolInterfaces.cpp:800-815 | hands the full buffer to the transport and grants the request or the fresh buffer's free space; the fresh buffer holds only its byte-order transaction |
| ProtocolInterfaces.PackingProtocol.OpenBuffer | uhal/uhal/src/common/ProtocolInterfaces.cpp:777-781 | a new buffer starts with exactly one byte-order transaction: 4 bytes sent, 4 reply bytes |
| ProtocolInterfaces.PackingProtocol.HandOff | uhal/uhal/src/common/ProtocolInterfaces.cpp:229-233 | the current buffer goes to the transport after the earlier ones, and there is no current buffer afterwards |
| ProtocolInterfaces.PackingProtocol.Dispatch | uhal/uhal/src/common/ProtocolInterfaces.cpp:225-237 | does nothing without a current buffer; otherwise hands it to the transport, flushes once and clears it |
| ProtocolInterfaces.PackingProtocol.Preamble | uhal/uhal/src/common/ProtocolInterfaces.cpp:205-219 | the preamble of a fresh buffer is one byte-order transaction |
| ProtocolInterfaces.PackingProtocol.Emit | uhal/uhal/src/common/ProtocolInterfaces.cpp:405-411 | once space is granted, the transaction's header and body go into the send bytes and its reply slots are registered; nothing is dispatched |
| ProtocolInterfaces.PackingProtocol.SendTransaction | uhal/uhal/src/common/ProtocolInterfaces.cpp:406-411 | the send bytes grow by the header image and the body, the reply slots by the transaction's slots |
| ProtocolInterfaces.PackingProtocol.Pack | uhal/uhal/src/common/ProtocolInterfaces.cpp:399-411 | a single-transaction operation dispatches exactly when checkBufferSpace says so and then appends its transaction to the current packet |
| ProtocolInterfaces.PackingProtocol.ByteOrderTransaction | uhal/uhal/src/common/ProtocolInterfaces.cpp:362-388 | checkBufferSpace for 4/4, then a B_O_T transaction is appended |
| ProtocolInterfaces.PackingProtocol.Write | uhal/uhal/src/common/ProtocolInterfaces.cpp:390-420 | checkBufferSpace for 12/4, then a WRITE of the address and value is appended |
| ProtocolInterfaces.PackingProtocol.AddHolder | uhal/uhal/src/common/ProtocolInterfaces.cpp:409-410 | a fresh, not yet valid holder of the kind is registered in the current buffer |
| ProtocolInterfaces.PackingProtocol.Read | uhal/uhal/src/common/ProtocolInterfaces.cpp:481-512 | checkBufferSpace for 8/8, then a READ of the address; an unsigned word holder is registered |
| ProtocolInterfaces.PackingProtocol.ReadSigned | uhal/uhal/src/common/ProtocolInterfaces.cpp:570-601 | the same READ with a signed word holder |
| ProtocolInterfaces.PackingProtocol.RmwBits | uhal/uhal/src/common/ProtocolInterfaces.cpp:695-733 | checkBufferSpace for 16/8, then an RMW_BITS of address, AND term and OR term |
| ProtocolInterfaces.PackingProtocol.RmwSum | uhal/uhal/src/common/ProtocolInterfaces.cpp:735-768 | checkBufferSpace for 12/8, then an RMW_SUM of the address and the addend cast to `uint32_t` |
| ProtocolInterfaces.PackingProtocol.ReadReservedAddressInfo | uhal/uhal/src/common/ProtocolInterfaces.cpp:659-690 | checkBufferSpace for 4/12, then an R_A_I header; a vector holder is registered |
| ProtocolInterfaces.PackingProtocol.Reserve | uhal/uhal/src/common/ProtocolInterfaces.cpp:446 | the grant a block operation receives is `Decide`'s, honours the request or exceeds 16 bytes, and adds no request to the stream |
| ProtocolInterfaces.PackingProtocol.WriteChunk | uhal/uhal/src/common/ProtocolInterfaces.cpp:446-465 | one iteration packs between one and the remaining words, as many as the grant carries, as a WRITE/NI_WRITE chunk of the next source words |
| ProtocolInterfaces.PackingProtocol.PackWriteChunk | uhal/uhal/src/common/ProtocolInterfaces.cpp:447-465 | the chunk's payload is `ChunkPayload` of the grant and its words are the next source words |
| ProtocolInterfaces.PackingProtocol.WriteBlock | uhal/uhal/src/common/ProtocolInterfaces.cpp:422-474 | an empty source fails before anything is packed; otherwise the chunks carry all the source words in order at their addresses |
| ProtocolInterfaces.PackingProtocol.WriteIteration | uhal/uhal/src/common/ProtocolInterfaces.cpp:444-466 | one loop pass keeps the write progress invariant and advances the address by the chunk's words |
| ProtocolInterfaces.PackingProtocol.ReadChunk | uhal/uhal/src/common/ProtocolInterfaces.cpp:540-553 | one iteration reads between one and the remaining words, as many as the reply grant carries |
| ProtocolInterfaces.PackingProtocol.PackReadChunk | uhal/uhal/src/common/ProtocolInterfaces.cpp:541-553 | the chunk's word count is `ChunkPayload` of the reply grant |
| ProtocolInterfaces.PackingProtocol.ReadBlock | uhal/uhal/src/common/ProtocolInterfaces.cpp:514-564 | fails, changing nothing, exactly on a read of 0 words with no current buffer (the `add` at :555 through a NULL pointer); otherwise chunks whose word counts add up to the size, then one vector holder (signed or not) registered in the current buffer, the last chunk's |
| ProtocolInterfaces.PackingProtocol.ReadWords | uhal/uhal/src/common/ProtocolInterfaces.cpp:535-554 | the chunk loop packs read chunks covering exactly `size` words at their addresses; a read of 0 words packs nothing and leaves the state as it was |
| ProtocolInterfaces.PackingProtocol.ReadIteration | uhal/uhal/src/common/ProtocolInterfaces.cpp:538-554 | one loop pass keeps the read progress invariant and advances the address by the chunk's words |
| ProtocolInterfaces.Validate | uhal/uhal/src/common/ProtocolInterfaces.cpp:246-331 | the do-while walk returns the verdict of the lockstep walk definition |
| ProtocolInterfaces.CheckReply | uhal/uhal/src/common/ProtocolInterfaces.cpp:264-288 | a reply header passes exactly when it extracts, reports no error and echoes the request's type and id |
| ProtocolInterfaces.ValidateBuffers | uhal/uhal/src/common/ProtocolInterfaces.cpp:343-356 | returns the walk's verdict; marks every holder valid when it accepts and touches none otherwise |
| ProtocolInterfaces.PacketValidates | uhal/uhal/src/common/ProtocolInterfaces.cpp:343-356 | on a buffer filled with a packet, validation accepts exactly when every reply header answers its request |
| ControlHub.PreambleBytes | cactuscore/uhal/uhal/include/uhal/TemplateDefinitions/ProtocolControlHub.hxx:90-93 | the send preamble is 12 bytes: zero byte count, IP address, port, zero word count |
| ControlHub.OverwrittenAt | cactuscore/uhal/uhal/include/uhal/TemplateDefinitions/ProtocolControlHub.hxx:117-118 | a store through a saved pointer changes exactly the bytes it writes |
| ControlHub.ByteCountField | cactuscore/uhal/uhal/include/uhal/TemplateDefinitions/ProtocolControlHub.hxx:116-117 | the patched byte count is `sendCounter - 4` |
| ControlHub.WordCountField | cactuscore/uhal/uhal/include/uhal/TemplateDefinitions/ProtocolControlHub.hxx:118 | the patched word count is `(sendCounter - 12) >> 2` while it fits 16 bits |
| ControlHub.PreambleSize | cactuscore/uhal/uhal/include/uhal/TemplateDefinitions/ProtocolControlHub.hxx:105-108 | three words more than the inner preamble, wrapping in `uint32_t` |
| ControlHub.Store | cactuscore/uhal/uhal/include/uhal/TemplateDefinitions/ProtocolControlHub.hxx:117-118 | a store through a saved send pointer overwrites those bytes of the send buffer and nothing else |
| ControlHub.ReservePreambleReplies | cactuscore/uhal/uhal/include/uhal/TemplateDefinitions/ProtocolControlHub.hxx:94-98 | five reply slots of 4, 4, 4, 2 and 2 bytes, 16 bytes in all |
| ControlHub.Hub.constructor | cactuscore/uhal/uhal/include/uhal/TemplateDefinitions/ProtocolControlHub.hxx:49-59 | keeps the target IP address and port in network byte order and the inner protocol's preamble size, with no preamble records |
| ControlHub.Hub.Preamble | cactuscore/uhal/uhal/include/uhal/TemplateDefinitions/ProtocolControlHub.hxx:69-100 | appends the 12 preamble bytes and the five reply slots, and pushes one record of the placeholders' positions at the back; the bytes sent are the words `getPreambleSize` adds to the inner protocol's |
| ControlHub.Hub.Predispatch | cactuscore/uhal/uhal/include/uhal/TemplateDefinitions/ProtocolControlHub.hxx:111-121 | patches the most recent preamble's byte count and word count in network order and leaves every other byte alone |
| ControlHub.Hub.Validate | cactuscore/uhal/uhal/include/uhal/TemplateDefinitions/ProtocolControlHub.hxx:124-167 | skips two slots, refuses a wrong IP address, then a wrong port, then a non-zero error code; every path pops the front record; success goes on 12 send bytes and 5 slots later |
| ControlHub.AddressCheck | cactuscore/uhal/uhal/include/uhal/TemplateDefinitions/ProtocolControlHub.hxx:132-140 | the address check accepts exactly a slot that starts with the device address in network order |
| ControlHub.PortCheck | cactuscore/uhal/uhal/include/uhal/TemplateDefinitions/ProtocolControlHub.hxx:143-151 | the port check accepts exactly a slot that starts with the device port in network order |
| ControlHub.PatchedPreamble | cactuscore/uhal/uhal/include/uhal/TemplateDefinitions/ProtocolControlHub.hxx:87-118 | a preamble as patched reads, in network order, the bytes after the byte-count field, the IP address, the port and the words after the preamble |
| UrlGrammar.Parse | uhal/grammars/src/common/URLGrammar.cpp:67 | the start rule fails softly exactly on an empty input or one that starts with ':'; a match keeps a non-empty protocol that the input starts with, followed by "://" |
| UrlGrammar.Protocol | uhal/grammars/src/common/URLGrammar.cpp:68 | fails softly exactly when no character other than ':' starts the input; a match is a non-empty run without ':' followed by "://" and the rest |
| UrlGrammar.Hostname | uhal/grammars/src/common/URLGrammar.cpp:69 | fails softly exactly when no character other than ':' starts the input; a match is a non-empty run without ':' followed by ':' and the rest |
| UrlGrammar.Port | uhal/grammars/src/common/URLGrammar.cpp:70 | fails softly exactly when the input starts with punctuation or is empty; a match is the longest non-empty run without ASCII punctuation |
| UrlGrammar.Path | uhal/grammars/src/common/URLGrammar.cpp:71 | fails softly exactly without a leading '/'; after '/' an empty run is a hard failure; a match is the longest non-empty run without '.' or '?' |
| UrlGrammar.Extension | uhal/grammars/src/common/URLGrammar.cpp:72 | fails softly exactly without a leading '.'; after '.' an empty run is a hard failure; a match is the longest non-empty run without '?' |
| UrlGrammar.Arguments | uhal/grammars/src/common/URLGrammar.cpp:73 | fails softly exactly without a leading '?'; a match is a list of well-formed pairs and leaves a suffix of the input |
| UrlGrammar.Span | uhal/grammars/src/common/URLGrammar.cpp:68-76 | a greedy repetition never goes past the end of the input |
| UrlGrammar.SpanMaximal | uhal/grammars/src/common/URLGrammar.cpp:68-76 | the repetition takes only admitted characters and stops at the first character the class refuses |
| UrlGrammar.SpanUnique | uhal/grammars/src/common/URLGrammar.cpp:68-76 | that stopping point is the only one |
| UrlGrammar.Pair | uhal/grammars/src/common/URLGrammar.cpp:74-76 | a matching pair consumes input |
| UrlGrammar.Pairs | uhal/grammars/src/common/URLGrammar.cpp:73 | `*data_pairs` never fails softly |
| UrlGrammar.AfterProtocol | uhal/grammars/src/common/URLGrammar.cpp:67-69 | once the protocol and "://" are read, failure is hard |
| UrlGrammar.AfterHostname | uhal/grammars/src/common/URLGrammar.cpp:67-70 | once the hostname and ':' are read, failure is hard |
| UrlGrammar.PlusOf | uhal/grammars/src/common/URLGrammar.cpp:68 | a non-empty admitted word followed by a stopping character is what `+(...)` reads |
| UrlGrammar.ThenOf | uhal/grammars/src/common/URLGrammar.cpp:68 | a required literal that is present is consumed |
| UrlGrammar.PairOf | uhal/grammars/src/common/URLGrammar.cpp:74-76 | a name, '=' and value are read back as that argument |
| UrlGrammar.PairsStep | uhal/grammars/src/common/URLGrammar.cpp:73 | the pair list is the first pair followed by the list read after it |
| UrlGrammar.PairsLast | uhal/grammars/src/common/URLGrammar.cpp:75-76 | the last pair's value runs to the end of the text |
| UrlGrammar.PairsCons | uhal/grammars/src/common/URLGrammar.cpp:73-76 | one more pair and its '&' in front of a readable list are read as the longer list |
| UrlGrammar.JoinCons | uhal/grammars/src/common/URLGrammar.cpp:73-76 | the text of two or more pairs reads back as those pairs |
| UrlGrammar.PairsRoundTrip | uhal/grammars/src/common/URLGrammar.cpp:73-76 | the text of any non-empty list of well-formed pairs reads back as that list |
| UrlGrammar.PathOf | uhal/grammars/src/common/URLGrammar.cpp:71 | an optional path is read back up to '.', '?' or the end |
| UrlGrammar.ExtensionOf | uhal/grammars/src/common/URLGrammar.cpp:72 | an optional extension is read back up to '?' or the end |
| UrlGrammar.AfterPathStart | uhal/grammars/src/common/URLGrammar.cpp:71-73 | what follows the path starts with '.' or '?' or is empty |
| UrlGrammar.AfterExtensionRoundTrip | uhal/grammars/src/common/URLGrammar.cpp:73 | the arguments part reads back as the arguments |
| UrlGrammar.AfterPathRoundTrip | uhal/grammars/src/common/URLGrammar.cpp:72-73 | the extension and arguments read back |
| UrlGrammar.LocatorRoundTrip | uhal/grammars/src/common/URLGrammar.cpp:71-73 | path, extension and arguments read back |
| UrlGrammar.RoundTrip | uhal/grammars/src/common/URLGrammar.cpp:67-76 | every URI whose fields respect the grammar's character classes is parsed from its text exactly, with nothing left |
| UrlGrammar.PlusSound | uhal/grammars/src/common/URLGrammar.cpp:68-70 | what `+(...)` reads is non-empty, admitted and maximal, and leaves a suffix |
| UrlGrammar.ThenSound | uhal/grammars/src/common/URLGrammar.cpp:68-69 | a required literal keeps the value and leaves a suffix |
| UrlGrammar.PairSound | uhal/grammars/src/common/URLGrammar.cpp:74-76 | a pair read has a non-empty name without '=' and a value without '&' |
| UrlGrammar.PairsSound | uhal/grammars/src/common/URLGrammar.cpp:73-76 | every pair in a list read is well formed and the rest is a suffix |
| UrlGrammar.OptionalPartSound | uhal/grammars/src/common/URLGrammar.cpp:71-72 | a path or extension read is non-empty and within its class |
| UrlGrammar.AfterExtensionSound | uhal/grammars/src/common/URLGrammar.cpp:73 | the arguments read are well formed |
| UrlGrammar.AfterPathSound | uhal/grammars/src/common/URLGrammar.cpp:72-73 | the extension and arguments read are well formed |
| UrlGrammar.LocatorSound | uhal/grammars/src/common/URLGrammar.cpp:71-73 | the path, extension and arguments read are well formed |
| UrlGrammar.ParseSound | uhal/grammars/src/common/URLGrammar.cpp:67-76 | every URI read is well formed, leaves a suffix, and is read back from its own text |
| UrlGrammar.AfterProtocolSound | uhal/grammars/src/common/URLGrammar.cpp:69-76 | the URI read after the protocol is well formed and keeps the protocol |
| UrlGrammar.AfterHostnameSound | uhal/grammars/src/common/URLGrammar.cpp:70-76 | the URI read after the hostname is well formed and keeps protocol and hostname |
| UrlGrammar.MissingSeparator | uhal/grammars/src/common/URLGrammar.cpp:68 | a protocol not followed by "://" is a hard failure at that point |
| UrlGrammar.MissingPort | uhal/grammars/src/common/URLGrammar.cpp:70 | an empty port is a hard failure where the port was expected |
| UrlGrammar.ChtcpExample | uhal/grammars/src/common/URLGrammar.cpp:67-76 | the ControlHub URI reads as protocol `chtcp-2.0`, host `pc-e1x06-36-01`, port `10203`, no path or extension, one argument `target` |
| UrlGrammar.ArgumentLinesAppend | uhal/grammars/src/common/URLGrammar.cpp:16-19 | the argument lines of two lists in a row are those of the joined list, in stored order |
| UrlGrammar.LineAppend | uhal/grammars/src/common/URLGrammar.cpp:18 | the five insertions of an argument make the line `   > name = value` |
| UrlGrammar.NextLine | uhal/grammars/src/common/URLGrammar.cpp:16-19 | each loop pass adds the next argument's line |
| UrlGrammar.WriteUri | uhal/grammars/src/common/URLGrammar.cpp:7-23 | the stream operator appends the header fields in fixed order and then one line per argument in stored order |
| UrlGrammar.WriteArguments | uhal/grammars/src/common/URLGrammar.cpp:16-19 | the loop appends the argument lines in stored order |
| UrlGrammar.HeaderInsertions | uhal/grammars/src/common/URLGrammar.cpp:9-14 | the six header insertions spell out protocol, hostname, port, path, extension and the arguments title |
| UrlGrammar.Titles | uhal/grammars/src/common/URLGrammar.cpp:36-46 | the log inserter's titles are the stream operator's, each after a newline |
| UrlGrammar.LogUri | uhal/grammars/src/common/URLGrammar.cpp:33-56 | the log inserter appends the same printout as the stream operator |
| UrlGrammar.LogArguments | uhal/grammars/src/common/URLGrammar.cpp:48-55 | the log inserter's loop appends the argument lines in stored order |
| HwInterface.Hw.constructor | cactuscore/uhal/uhal/src/common/HwInterface.cpp:40-46 | keeps the client and the tree and claims every node of the tree |
| HwInterface.Hw.Copy | cactuscore/uhal/uhal/src/common/HwInterface.cpp:49-55 | shares the other interface's client, claims every node of the clone, and leaves the original tree's back-pointers as they were |
| HwInterface.Hw.ClaimNode | cactuscore/uhal/uhal/src/common/HwInterface.cpp:63-72 | the node and every descendant point at this interface; only back-pointers of that subtree change |
| HwInterface.ChildFacts | cactuscore/uhal/uhal/src/common/HwInterface.cpp:68-71 | each child is a valid subtree strictly below its parent |
| HwInterface.Cover | cactuscore/uhal/uhal/src/common/HwInterface.cpp:66-71 | every node of a subtree is its root or in a child's subtree |
| PerfSuite.NatToDecimal | cactuscore/uhal/tests/src/python/ipbus_perf_suite.py:113 | `str()` of a natural number is non-empty decimal digits without a leading zero |
| PerfSuite.IntToDecimal | cactuscore/uhal/tests/src/python/ipbus_perf_suite.py:45 | `str()` of an integer is non-empty, has no space and ends with a digit |
| PerfSuite.NatDecimalRoundTrip | cactuscore/uhal/tests/src/python/ipbus_perf_suite.py:113 | the decimal text of a natural number reads back as that number |
| PerfSuite.IntDecimalRoundTrip | cactuscore/uhal/tests/src/python/ipbus_perf_suite.py:45 | the decimal text of any integer, sign included, reads back as that integer |
| PerfSuite.SudoRewrite | cactuscore/uhal/tests/src/python/ipbus_perf_suite.py:56-57 | a command starting with "sudo" becomes "sudo PATH=$PATH " followed by the rest after its first four characters, twelve characters longer; other commands are unchanged; the result starts with "sudo" exactly when the command did |
| PerfSuite.SudoRewriteTwice | cactuscore/uhal/tests/src/python/ipbus_perf_suite.py:56-57 | the rewrite is not idempotent: a second rewrite adds the PATH setting again |
| PerfSuite.ControlHubStartCommand | cactuscore/uhal/tests/src/python/ipbus_perf_suite.py:137-138 | the ControlHub start command is run with `PATH=$PATH` twice |
| PerfSuite.CommandLine | cactuscore/uhal/tests/src/python/ipbus_perf_suite.py:113-116 | the PerfTester command starts with the executable and the test name and ends with " -d " and the URI |
| PerfSuite.BuildCommand | cactuscore/uhal/tests/src/python/ipbus_perf_suite.py:113-116 | the command is the test, iterations, fixed base address and width, then " -p" when asked for, then " -d" and the URI |
| PerfSuite.DispatchFlagIff | cactuscore/uhal/tests/src/python/ipbus_perf_suite.py:113-116 | the command ends with " -d " and the URI, and before that ends with " -p" exactly when dispatch per iteration is asked for |
| PerfSuite.CommandNotRewritten | cactuscore/uhal/tests/src/python/ipbus_perf_suite.py:113-118 | the PerfTester command passes through the sudo rewrite unchanged |
| PerfSuite.Outcome | cactuscore/uhal/tests/src/python/ipbus_perf_suite.py:68-87 | the loop is left running exactly when no event of the trace ends it |
| PerfSuite.LoopEffects | cactuscore/uhal/tests/src/python/ipbus_perf_suite.py:71-87 | the process group is killed exactly when the loop times out, and the kill is the last effect |
| PerfSuite.FirstStop | cactuscore/uhal/tests/src/python/ipbus_perf_suite.py:71-87 | the first event that ends the loop: none before it stops, and it stops |
| PerfSuite.LoopStep | cactuscore/uhal/tests/src/python/ipbus_perf_suite.py:75-84 | one more event adds its text to the output and its pause to the effects |
| PerfSuite.ReadLoop | cactuscore/uhal/tests/src/python/ipbus_perf_suite.py:68-87 | the loop's output and effects are those of the first-stop definition; it kills the process group exactly when it times out, and that is the last thing it does |
| PerfSuite.FinishAt | cactuscore/uhal/tests/src/python/ipbus_perf_suite.py:75-77 | the first empty read ends the loop with what was read before it |
| PerfSuite.TimeoutAt | cactuscore/uhal/tests/src/python/ipbus_perf_suite.py:82-87 | the first quiet poll past the timeout sleeps, kills the process group and times out |
| PerfSuite.ExhaustedAt | cactuscore/uhal/tests/src/python/ipbus_perf_suite.py:71-87 | a trace with no stopping event leaves the loop running with everything read |
| PerfSuite.TimedOutIff | cactuscore/uhal/tests/src/python/ipbus_perf_suite.py:82-87 | a timeout happens exactly when a quiet poll past 240 seconds comes before any end of output |
| PerfSuite.FinishedIff | cactuscore/uhal/tests/src/python/ipbus_perf_suite.py:71-80 | the loop finishes with an output exactly when an empty read comes first and the output is everything read before it, in order |
| PerfSuite.ChattyCommandNeverTimesOut | cactuscore/uhal/tests/src/python/ipbus_perf_suite.py:82-85 | a command that always has output ready is never timed out |
| PerfSuite.EventsAfterEndIgnored | cactuscore/uhal/tests/src/python/ipbus_perf_suite.py:76-77 | nothing after the first empty read affects the result |
| PerfSuite.ConcatAppend | cactuscore/uhal/tests/src/python/ipbus_perf_suite.py:105 | joining two lists of lines one after the other is joining the combined list |
| PerfSuite.ExitStatus | cactuscore/uhal/tests/src/python/ipbus_perf_suite.py:94-98 | a non-zero code is an error carrying it; zero and `None` are returned with the output |
| PerfSuite.RunLocal | cactuscore/uhal/tests/src/python/ipbus_perf_suite.py:51-98 | the local branch runs the rewritten command: a finished loop is classified by poll's code, a timeout reports the command and 240 seconds |
| PerfSuite.RunPerfTester | cactuscore/uhal/tests/src/python/ipbus_perf_suite.py:110-118 | run_perftester runs its command line locally, unchanged by the rewrite |
| PerfSuite.RunRemote | cactuscore/uhal/tests/src/python/ipbus_perf_suite.py:101-107 | a non-zero status is an error carrying the rewritten command and the status; a zero status completes with code 0 |
| PerfSuite.RemoteOutput | cactuscore/uhal/tests/src/python/ipbus_perf_suite.py:101-107 | the remote status is classified like a local code; the output is all stdout lines then all stderr lines; a failing status is reported whatever the streams hold |
| PerfSuite.HardTimeoutText | cactuscore/uhal/tests/src/python/ipbus_perf_suite.py:37-38 | the timeout message starts with the quoted command and ends with " seconds" |
| PerfSuite.BadExitCodeText | cactuscore/uhal/tests/src/python/ipbus_perf_suite.py:44-45 | the bad-exit message starts with "Exit code " and ends with the command in quotes |
| PerfSuite.BadExitCodeTextParts | cactuscore/uhal/tests/src/python/ipbus_perf_suite.py:44-45 | the bad-exit text is "Exit code ", the code, then " from command '" with the command in quotes |
| PerfSuite.BadExitCodeTextInjective | cactuscore/uhal/tests/src/python/ipbus_perf_suite.py:44-45 | the bad-exit text determines the command and the exit code |
| PerfSuite.HardTimeoutTextInjective | cactuscore/uhal/tests/src/python/ipbus_perf_suite.py:37-38 | the timeout text determines the command and the timeout |
| PerfSuite.ChtcpUriParses | cactuscore/uhal/tests/src/python/ipbus_perf_suite.py:158 | the suite's ControlHub URI reads field by field with the single argument `target` |

## Left out

- Logging, the `PERFORMANCE` timing macro and the catch-log-rethrow wrappers are not modelled. An exception inside an operation is a single failure outcome (`WriteBlock`'s `at(0)` of an empty vector).
- The header codec (`calculateIPbusHeader`/`extractIPbusHeader`) belongs to the concrete IPbus versions, which are not part of this model. `IPbus.Encode`/`IPbus.Decode` pick one bit layout with the inverse property the core relies on. The transaction id counter that the codec advances is modelled as counting up and wrapping after 255 (`ProtocolInterfaces.NextId`).
- The host is taken to be little-endian, so `htonl`/`htons` swap bytes. The templated `send`/`receive` of a value copy its 4-byte (or 2-byte) memory image.
- Reply slot pointers are not modelled. A slot is its size, and the bytes the transport writes into the slots are a parameter of `Validate`. The holders' value fields, the `read` mask and the `ValVector` sizes are left out for the same reason.
- ProtocolInterfaces.PackingProtocol.constructor: the maximum sizes are required to be more than 20 and below 2^18 bytes. A smaller send buffer could not take a byte-order transaction and the largest single transaction, so the source's `memcpy` would overrun. The upper bound keeps every chunk's word count within a header.
- The transport is a sink that records dispatched buffers and counts flushes. Its timeout getter and setter, `Link`, the buffer getters and the destructors are not modelled.
- ProtocolInterfaces.PackingProtocol.ReadBlock: the NULL dereference at `uhal/uhal/src/common/ProtocolInterfaces.cpp:555` (a read of 0 words while no buffer is open) is modelled as the failure `NoCurrentBuffer`, not as the crash it would be. `&lReplyMem.value[0]` on the empty vector of such a read is not modelled either.
- `readBlockSigned` is `ProtocolInterfaces.PackingProtocol.ReadBlock` with `signed` set. The two source functions differ only in the holder's element type.
- Thread safety of `Validate` is not modelled; the model is sequential.
- ControlHub is modelled over an abstract inner protocol. The inner protocol's `preamble`, `predispatch` and `validate` calls are where the model stops: `ControlHub.Hub.Validate` returns the positions handed on instead of calling the inner protocol. The header file's member declarations, `mTransactionCounter` (set and never used here) and the argument-less `validate` forwarder are not modelled.
- ControlHub.Hub.constructor: `ExtractTargetID`, which is not part of this model, is replaced by the IP address and port it would return, passed as parameters. The inner protocol's static `getPreambleSize` is a parameter as well.
- ControlHub.Hub.Predispatch: the pointers saved by `preamble` are positions in the send bytes of the same buffer. A record from an earlier buffer, which the source would patch through a stale pointer, cannot be expressed.
- The grammar's result struct and the `URIGrammar` declaration live in `URLGrammar.hpp`, which is not part of this model. Whether a caller uses a skipper or requires the whole input to be consumed is not visible either, so `UrlGrammar.Parse` returns the text left over.
- Characters are Dafny `char`s. `ascii::punct` is taken as the 32 ASCII punctuation characters, and no locale or encoding is modelled.
- `HwInterface` is modelled with each node's children and subtree fixed (`const`). `claimNode` writes only the `hw` back-pointer, so the tree's shape and child order are unchanged by construction rather than by a proved frame.
- HwInterface.Hw.Copy: `Node::clone` is not part of this model. The copy constructor receives the clone as a parameter and requires it to share no node with the original tree.
- HwInterface's getters and forwarders (`getClient`, `getNode`, `dispatch`, `id`, `uri`, the timeout accessors) and `logging()` only delegate and are not modelled.
- Perf suite: processes, pipes, `fcntl`, `os.killpg`, `time.sleep`, the clock and `KeyboardInterrupt` are not modelled. The loop runs over a finite trace of read events, with the elapsed time given in each quiet poll. A pause and the group kill are recorded as effects. A trace that ends before an empty read or a timeout yields `StillRunning`.
- Perf suite: the unused `last` timestamp, the progress `print`s, SSH connection setup (`ssh_into` is also syntactically broken in the source), the metric scraping of `run_perftester` (regular expressions and floating point) and the fixed `__main__` sequence are not modelled.
- Perf suite: the remote branch's streams are given as lists of lines, and its exit status as an integer.

## Findings

| source | as written | input that shows it | evidently intended | confidence | as-written member | corrected member |
|---|---|---|---|---|---|---|
| uhal/uhal/src/common/ProtocolInterfaces.cpp:440 | the block write's payload byte count is the word count shifted left by two, stored in an `int32_t` | a source of 2^29 words gives a negative count, so the loop packs nothing; 2^30 + 1 words give a count of 4, so one word is sent | four bytes per word, so every source word is packed | not executed | PacketLayout.PayloadByteCountWraps | ProtocolInterfaces.PackingProtocol.WriteBlock |
| uhal/uhal/src/common/ProtocolInterfaces.cpp:535 | the block read's payload byte count is `aSize` shifted left by two, stored in an `int32_t` | a read of 2^29 words gives a negative count, so nothing is requested; 2^30 + 1 words request one word | four bytes per word, so all `aSize` words are read | not executed | PacketLayout.PayloadByteCountWraps | ProtocolInterfaces.PackingProtocol.ReadWords |
