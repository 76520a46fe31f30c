# fdpi in Dafny

fdpi is a C++ library that decodes captured packets. Below its decoders sit small stateful engines that turn
unordered, repeated or concurrent input into something a simple specification describes. This project models those
engines and the parsers that have an inverse or a termination argument, and proves what they promise.

- `Reassembly`, `ReassemblySafety`, `ReassemblyEpochs`, `ReassemblyNewStream`, `ReassemblyOffsets`,
  `ReassemblyCompleteness`, `ReassemblyOrder`, `Tiling`: TCP reassembly with wrapping sequence numbers (section 3.4 of
  RFC 9293). Between two SYNs a prefix of what the sender wrote is delivered; which prefix, for every order, overlap and
  length, is known exactly, and so is when the order matters, when a byte comes out twice, and when bytes of an old
  connection come out in a new one.
- `StreamDecoder`, `StreamConservation`, `StreamCompleteness`, `StreamFraming`: the buffer between reassembly and the L7
  decoders, and what the TLS and Telnet decoders take from it over whole runs.
- `Mail`, `MailRoundTrip`, `MailData`, `StreamDataMode`, `StreamMailSession`: SMTP and POP3 lines, and the data modes
  (sections 4.1.1.4 and 4.5.2 of RFC 5321, section 3 of RFC 1939), in which one direction decides how the other is read.
- `Processor`, `ProcessorRuns`, `ProcessorTallies`, `ProcessorBalance`, `ProcessorCode`, `ProcessorInputs`: the
  multi-threaded processor as a system of atomic steps whose interleaving is arbitrary, its counters and the balance of
  its workers, the object whose sections are those steps, and packets that stop it.
- `Defragment`, `DefragmentCompleteness`, `DefragmentInterleaving`, `DefragmentLeftover`: IPv4 defragmentation (section
  3.2 of RFC 791).
- `Flow`, `FlowTable`: canonical flow identifiers and the bounded table of conversations.
- `Address`, `AddressCode`, `AddressCase`, `AddressGrammar`: text forms of IPv4, IPv6 (section 2.2 of RFC 4291, RFC 5952)
  and MAC addresses, and exactly which texts are accepted.
- `DnsName`, `DnsNameText`, `Dns`, `DnsErrors`, `DnsRoundTrip`, `DnsCompression`: compressed names and messages (section
  4.1 of RFC 1035).
- `Tls`, `TlsFraming`, `TlsClientHello`, `TlsServerHello`, `TlsRecordCut`: records and hello extraction (section 5.1 of
  RFC 8446).
- `Telnet`, `TelnetProperties`: data and commands (RFC 854, RFC 855).
- `Asn1`: BER lengths, integers and strings (sections 8.1.3 and 8.3 of ITU-T X.690).
- `Common`, `Wire`: machine types, sums over maps, big-endian fields.

Where the source changes state, the model is a class or a method with the source's loops, and its contract equates
the new state or the result with a specification function; the lemmas are about that function, over whole histories.
Machine arithmetic is written out: sequence numbers modulo 2^32 with the signed comparison, the 16-bit fragment
offset, `size_t` underflow of the expected datagram size, the 64-bit hash, `int64_t` accumulation.

## Where the code differs from what one would expect

The model follows the code. Each difference is a lemma, and the positive results say exactly when it does not matter.

- A segment that straddles the next expected byte is stored under its old number and never delivered
  (`StraddlingSegmentStalls`). `RunPictured` and `DeliversExactlyReachable` say what is delivered for all segments; for
  disjoint cuts `TcpCompleteness` is an if-and-only-if.
- A segment is stored over a buffered one with the same number and another length. If the new one is shorter, buffered
  bytes are thrown away, and exactly then (`BytesAreLostIff`); the same segments then deliver different prefixes in
  different orders (`OverwritingDependsOnOrder`). `ConfluentIff` says exactly for which segments the order does not
  matter.
- The bytes of an overwritten segment stay counted (`OverwrittenBytesAreCounted`); `Accounting` gives the exact excess.
- A repeated SYN rewinds the stream (`RepeatedSynRedelivers`). If all SYNs announce the same number, every epoch between
  them delivers a prefix (`EpochsArePrefixes`), and no byte comes out twice if and only if at most one epoch accepts a
  segment while the first byte is at hand (`EachByteOnceIff`, `EveryEpochDeliversIff`).
- A SYN that announces a new stream leaves the old connection's segments where they are, and their bytes can come out in
  the new stream (`OldBytesAreDelivered`). `NewStreamIsSafeIff` says exactly when none ever do.
- The packet decoder never shows a bare SYN to the reassembler, so completeness depends on which segment comes first
  (`CompletenessWithoutSyn`, an if-and-only-if).
- Any SYN behind another SYN or a payload of its flow is reported as a retransmission, also one that opens a new
  connection (`AnswerWithoutData`).
- A repeated segment is not reported as a retransmission when the size check rejects it first (`RepeatIsNotReported`;
  `RetransmissionIsExact` is the if-and-only-if).
- Leaving a mail data mode consumes nothing, so the first line of the message is decoded next, as a protocol line
  (`MessageIsReadAsProtocol`, with a session packet by packet in `MailedCommandIsObeyed`). A message that begins with an
  empty line blocks its flow for good (`EmptyFirstLineBlocks`).
- A FIN or RST without payload does not end a stream: `decode` reaches the cleanup only for packets with payload, so what
  is proved about open flows covers flows that were closed in the usual way.
- Decoding can hang or throw on a worker's thread, and nothing there ends or catches it: one DNS query of 18 bytes makes
  `stop` wait forever (`SelfPointingQueryBlocksStop`), one fragment of 20 bytes ends the process
  (`ShortFragmentEndsProcess`). `StopCanCompleteIff` says exactly when a stop under way can still complete.
- `submit` checks `started` before it takes the lock (`LatePushIsLost`); `StoppedHandlesAllIff` says exactly which
  runs leave an item behind, and that item is handled only if the processor is started again (`HaltedHandlesNothing`,
  `RestartHandlesLatePush`). `flush` says that it waits for the queues to drain, and does not wait for the item being
  decoded (`FlushMissesItemInFlight`).
- Flow pinning hashes the first 40 raw bytes, link header included, so it pins equal prefixes rather than flows
  (`OneByteUnpins`).
- An IPv6 text with eight groups may have a double colon that stands for none of them, and a group any number of leading
  zeros; `IPv6IsReadIff` says exactly what is accepted.
- A dot inside a DNS label is not escaped (`DotInLabelIsLost`): the labels can be read off a name if and only if none
  contains one (`LabelsComeBackIff`).
- The fragment group key has no protocol, unlike the buffer identifier of RFC 791 (`ProtocolsAreMixed`).
- Groups do not expire, so a late duplicate of a fragment stays (`LateDuplicateStays`) and meets the next datagram with
  the same identification. `LeftoverIsHarmlessIff` says exactly when that datagram still comes out right; one that
  lies away from the tiles' offsets keeps it from ever coming out (`MisplacedLeftoverStays`).
- Any overlap keeps a datagram from being complete; `CompleteIffEndToEnd` says exactly when a buffer is.
- The defragmenter does not compare a fragment's `totalLength` with what was captured: it copies memory behind the
  fragment (`ForeignBytesAreStored`, `CutShortByTheCapture`), or throws when `totalLength` is less than the header's
  length (`ThrowsIff`). The copy stays inside if and only if the fragment is readable (`CopyStaysInsideIff`).
- A last fragment cut off inside its own header brings no bytes and yet ends its datagram (`CutHeaderEndsDatagram`).
- The cipher suite loop reads two bytes at a time, so a list of odd length that ends the buffer is read one byte too far
  (`OneByteListReadsPast`). What is decoded is independent of that byte if and only if the record is readable
  (`RecordIgnoresBeyondIff`).
- The hello fields up to the cipher suites are checked against the end of the buffer and not of the record, so the same
  record says different things when more bytes follow (`SuitesFromTheNextBytes`); `RecordIgnoresWhatFollowsIff` says
  exactly for which records it does not.
- A flow table with `maxFlows` zero erases the end of an empty table on every update (`UpdateIsDefinedIff`).
- `lookup` does not normalise its argument (`LookupNeedsCanonical`).
- The depth guard of the DNS name decoder is never advanced (`SelfPointerNeverHalts`); `TerminationIsDecidable` and
  `PriorOccurrencesTerminate` say when it terminates.
- The search for a subnegotiation's end does not know that IAC is doubled inside (RFC 855): parameters with an IAC before
  a 240 end too early, and exactly those (`SubReadsBackIff`).
- A Telnet subnegotiation that ends with the buffer is consumed, so what follows is read as data
  (`SplitIffOutsideSub`, an if-and-only-if).

## Model

| member | source | states |
|---|---|---|
| `Reassembly.TcpReassembler.constructor` | src/reassembly.cpp:28-30 | A new reassembler has no streams and the configured byte limit. |
| `Reassembly.TcpReassembler.Process` | src/reassembly.cpp:34-100 | One packet changes the stream of its own flow and no other; the new stream and the result are those of the specification `Receive`, whose whole-run properties follow. |
| `Reassembly.Assemble` | src/reassembly.cpp:84-96 | The assembly loop terminates, takes every contiguous segment and joins them in sequence order. |
| `Reassembly.SeqOrderIsOffsetOrder` | src/reassembly.cpp:9-11 | The signed 32-bit comparison orders stream offsets for every base number, including across the wrap, while they are less than 2^31 apart. |
| `Reassembly.SeqOrderFailsAtHalf` | src/reassembly.cpp:9-11 | Exactly 2^31 ahead the comparison is wrong, for every base: the window above cannot be widened. |
| `Reassembly.DrainAccounts` | src/reassembly.cpp:84-96 | Bytes leave the map exactly as they come out, nothing stays under the expected number, and something comes out if it was there. |
| `Reassembly.ReceiveAccounts` | src/reassembly.cpp:56-96 | One arbitrary packet keeps buffered bytes <= totalBytes <= maxStreamBytes; the excess grows only by the length of an overwritten segment. |
| `Reassembly.Accounting` | src/reassembly.cpp:34-100 | For every packet history: no buffered segment is empty, the counter never underflows or exceeds the limit, it equals the buffered bytes plus the overwritten ones, and every stored byte is delivered, buffered or overwritten. |
| `ReassemblySafety.DrainStaysOnStream` | src/reassembly.cpp:84-96 | Draining buffered pieces of a sender's stream yields the bytes that come next in that stream, and moves the expected number just past them. |
| `ReassemblySafety.ReceiveStaysOnStream` | src/reassembly.cpp:51-99 | Any piece of the stream, overlapping, old or ahead, yields only the bytes that come next. |
| `ReassemblySafety.DeliversFromOrigin` | src/reassembly.cpp:34-100 | Safety in general: what is delivered since the last SYN is a contiguous piece of the stream, starting at its first byte or, without a SYN, at the first payload to arrive. |
| `ReassemblySafety.TcpSafety` | src/reassembly.cpp:34-100 | With at most an opening SYN, in any order and with any overlap or duplication, all delivered data is a prefix of the sender's stream (shorter than 2^32) and the expected number is that of the next byte; runs with later SYNs are the subject of `ReassemblyEpochs`. |
| `ReassemblySafety.MidStreamSafety` | src/reassembly.cpp:51-54 | Without a SYN, delivery starts at the first payload to arrive and what precedes it never comes out. |
| `ReassemblySafety.AnswerWithoutData` | src/reassembly.cpp:40-49 | For every history: a SYN is reported as a retransmission if and only if an earlier arrival was a SYN or carried payload, and returns no data; an arrival with neither SYN nor payload is answered with nothing and changes nothing. |
| `ReassemblySafety.ReturnedDataIsNotEmpty` | src/reassembly.cpp:94-99 | No arrival ever returns empty data. |
| `ReassemblySafety.RepeatedSynRedelivers` | src/reassembly.cpp:40-44 | The smallest instance of a rewinding SYN: a history whose one data byte is delivered twice. |
| `ReassemblyEpochs.EpochsTogether` | src/reassembly.cpp:34-100 | Everything delivered is what the epochs between SYNs deliver, in order; the last epoch is what was delivered since the last SYN. |
| `ReassemblyEpochs.EpochsArePrefixes` | src/reassembly.cpp:34-100 | Safety for any number of SYNs that all announce the same number, as retransmitted ones do: every epoch delivers a prefix of the sender's stream. SYNs of a new connection are the subject of `ReassemblyNewStream`. |
| `ReassemblyEpochs.EachByteOnceIff` | src/reassembly.cpp:40-44 | For every history with any number of SYNs that announce the same number, every delivered byte is the stream's byte at a known offset, no offset comes out twice if and only if at most one epoch accepts a segment while the first byte is at hand, and then the data is a prefix of the stream. |
| `ReassemblyEpochs.FirstByteDelivers` | src/reassembly.cpp:56-99 | An arrival at a stream that waits for its first byte delivers if and only if it is stored and that byte is at hand, in it or in the buffer. |
| `ReassemblyEpochs.EpochDeliversIff` | src/reassembly.cpp:40-99 | The last epoch delivers anything if and only if, behind its SYN, a segment is accepted while the stream's first byte is at hand, even one buffered in an earlier epoch. |
| `ReassemblyEpochs.EpochEndsAtSyn` | src/reassembly.cpp:40-44 | Epoch i ends at the SYN that has i SYNs before it, or at the end of the history. |
| `ReassemblyEpochs.EpochIsSinceSyn` | src/reassembly.cpp:40-99 | Every epoch is what is delivered since the last SYN of the history up to the epoch's end. |
| `ReassemblyEpochs.EveryEpochDeliversIff` | src/reassembly.cpp:40-99 | Any epoch delivers something if and only if it accepts a segment while the first byte is at hand. |
| `ReassemblyNewStream.SinceSynIsFromSyn` | src/reassembly.cpp:40-44 | What is delivered since a SYN is what comes out from the state it leaves: new expected number, old segments. |
| `ReassemblyNewStream.NewStreamIsSafeIff` | src/reassembly.cpp:40-99 | After any history, a SYN that announces a new stream (shorter than 2^31, within the limit): for all parts of it in any order, what is delivered since is a prefix of it if and only if no segment left by the old connection is harmful, that is, at one of its offsets, no piece of it, and within reach of some part. |
| `ReassemblyNewStream.NewStreamIsSafeIffPieces` | src/reassembly.cpp:40-99 | For streams of at least four bytes: safe if and only if every segment left at an offset up to the stream's length is a piece of the new stream. |
| `ReassemblyNewStream.HarmlessIff` | src/reassembly.cpp:80-99 | From four bytes on every segment left in the stream's range that is no piece of it is within reach of some part. |
| `ReassemblyNewStream.HarmfulComesOut` | src/reassembly.cpp:66-99 | A single part of the new stream brings a harmful segment out. |
| `ReassemblyNewStream.ShortStreamMayBeSafe` | src/reassembly.cpp:71-78 | An instance below four bytes: a one-byte stream is taken for a retransmission of a left segment, and the foreign one behind it never comes out. |
| `ReassemblyNewStream.OldBytesAreDelivered` | src/reassembly.cpp:40-44 | An input: the second connection writes one byte, and two come out. |
| `Tiling.BoundaryStartsTile` | src/reassembly.cpp:84-96 | In a disjoint cut every boundary inside the stream starts a segment, so draining never stops inside one. |
| `ReassemblyOffsets.DrainPictured` | src/reassembly.cpp:84-96 | The assembly loop delivers exactly the bytes up to which buffered segments chain in plain stream offsets. |
| `ReassemblyOffsets.RetransmissionCriterion` | src/reassembly.cpp:66-78 | The modular comparison and the map lookup recognise exactly the parts that lie in the delivered prefix or are buffered with the same length. |
| `ReassemblyOffsets.ReceivePictured` | src/reassembly.cpp:56-99 | One part of any length at any offset: state, delivered bytes and retransmission flag are those of a reassembler on plain offsets, size limit included. |
| `ReassemblyOffsets.RunPictured` | src/reassembly.cpp:34-100 | Refinement over every run, with no condition on order, overlap, lengths, duplication or limit: for streams shorter than 2^31 the modular reassembler is the one on plain offsets, and delivers exactly its prefix. |
| `ReassemblyCompleteness.RoomForAll` | src/reassembly.cpp:56-59 | The size check turns nothing away if all arrivals together, duplicates counted, respect the limit. |
| `ReassemblyCompleteness.RoomForCut` | src/reassembly.cpp:56-82 | With one length for each offset it turns nothing away if the cut respects the limit, however often segments are repeated. |
| `ReassemblyCompleteness.DeliversExactlyReachable` | src/reassembly.cpp:34-100 | For all parts of a stream, whatever their overlap, their lengths (several at one offset included), order and duplication, unless the size check turned a new part away: exactly the prefix is delivered that one reaches by the last length to arrive at each offset before it was delivered. |
| `ReassemblyCompleteness.Confluence` | src/reassembly.cpp:34-100 | With one length for each offset, overlapping or not, delivered bytes and expected number depend only on which segments arrived. |
| `ReassemblyOrder.BytesAreLostIff` | src/reassembly.cpp:81-82 | An arrival throws buffered bytes away if and only if it is stored over a longer buffered segment. |
| `ReassemblyOrder.OutcomeIsChoice` | src/reassembly.cpp:66-96 | Whatever the order of a set of parts, what is delivered is where some choice of one length for each offset leads. |
| `ReassemblyOrder.ChoiceHappens` | src/reassembly.cpp:66-96 | Every such choice is the outcome of an order of the same parts. |
| `ReassemblyOrder.ConfluentIff` | src/reassembly.cpp:66-96 | All orders, duplicates and sufficient limits deliver the same if and only if all choices of lengths lead to the same place. |
| `ReassemblyOrder.OverwritingDependsOnOrder` | src/reassembly.cpp:81-82 | The same three segments in two orders deliver two bytes and three. |
| `ReassemblyCompleteness.TcpCompleteness` | src/reassembly.cpp:34-100 | For a disjoint cut of a stream shorter than 2^31 that fits the limit, the whole stream is delivered, each byte once, if and only if every segment arrived. |
| `ReassemblyCompleteness.RetransmissionIsExact` | src/reassembly.cpp:56-78 | A segment is reported as a retransmission if and only if it arrived before and the size check lets it through. |
| `ReassemblyCompleteness.RepeatIsNotReported` | src/reassembly.cpp:56-59 | Two disjoint segments that fill the limit: the buffered one is repeated and not reported. |
| `ReassemblyCompleteness.OverwrittenBytesAreCounted` | src/reassembly.cpp:81-82 | A second length at an offset: the overwritten bytes stay counted. |
| `ReassemblyCompleteness.StraddlingSegmentStalls` | src/reassembly.cpp:66-81 | A segment that straddles the expected number stays under its old key: three bytes arrive, two come out. |
| `StreamCompleteness.SynMakesNoDifference` | src/decoder.cpp:795-803 | If the first payload is the stream's first, a stream opened by it and one opened by a SYN end in the same state with the same delivered bytes. |
| `StreamCompleteness.CompletenessWithoutSyn` | src/decoder.cpp:795-803 | Through the decoder, which drops bare SYNs, the whole stream is delivered if and only if every segment arrives and the stream's first segment arrives first. |
| `StreamCompleteness.DecodersSeeEverything` | src/decoder.cpp:795-845 | End to end, on a flow without a FIN or RST that carries payload, whose stream fits both limits: consumed followed by buffered bytes equal everything the sender wrote if and only if every segment arrives, the stream's first one first. A FIN or RST without payload may come at any time. |
| `StreamDecoder.PacketDecoder.constructor` | src/decoder.cpp:415 | A new decoder has no streams, no mail states and a reassembler with the configured limit. |
| `StreamDecoder.DecodeL7` | src/decoder.cpp:111-381 | A successful decode never consumes more than the buffer holds, and the SMTP, POP3 and TLS cases consume at least one byte; what TLS and Telnet consume is pinned over runs by `StreamFraming`. |
| `StreamDecoder.PacketDecoder.DecodeSmtpCase` | src/decoder.cpp:205-225 | The SMTP case changes the states of both directions, succeeds and consumes as specified by `SmtpCall`. |
| `StreamDecoder.PacketDecoder.DecodePop3Case` | src/decoder.cpp:226-259 | The POP3 case changes the states of both directions, succeeds and consumes as specified by `Pop3Call`. |
| `StreamDecoder.PacketDecoder.DecodeL7Of` | src/decoder.cpp:111-381 | The SMTP, POP3, TLS and Telnet cases: only the detected protocol's states change, and what a success consumes is what that decoder specifies. |
| `StreamDecoder.PacketDecoder.FeedStream` | src/decoder.cpp:805-837 | Newly reassembled bytes are appended, the protocol is settled once, a successful decode is erased from the front, an overflowing buffer is dropped. |
| `StreamDecoder.PacketDecoder.DecodePayload` | src/decoder.cpp:794-855 | The whole step behind flow tracking, on the stream path, on the packet path, and with FIN or RST. |
| `StreamConservation.PathsTaken` | src/decoder.cpp:795-855 | With detection off or without payload a packet has no effect; only TCP packets with reassembly on reach the reassembler and the stream buffers. |
| `StreamConservation.StepOnBuffer` | src/decoder.cpp:798-845 | One packet: old buffer plus reassembled bytes equal consumed bytes plus new buffer, the limit is kept, a closed or overflowing flow is as new, other flows are untouched. |
| `StreamConservation.Conservation` | src/decoder.cpp:798-845 | For every history, since a flow's buffer was last dropped, the consumed bytes followed by the buffer are exactly what the reassembler delivered, and the buffer never exceeds maxL7StreamBytes. |
| `StreamConservation.FailedDecodeKeepsBytes` | src/decoder.cpp:826-836 | A failed decode consumes nothing. |
| `StreamConservation.FlowSeesItsArrivals` | src/decoder.cpp:798-803 | Interleaved packets of other flows do not matter: a flow's stream and deliveries are those of its own arrivals. |
| `StreamConservation.EndToEnd` | src/decoder.cpp:798-845 | Composed with TCP safety: decoders consume and buffer a contiguous slice of what the sender wrote. |
| `StreamConservation.OpenFlowIsNeverErased` | src/decoder.cpp:807-853 | On a flow without a FIN or RST that carries payload, whose data fits the buffer, nothing is thrown away. |
| `StreamConservation.DecodersSeePrefix` | src/decoder.cpp:798-845 | On a flow without a FIN or RST that carries payload, whose stream fits the buffer, consumed ++ buffer is a prefix of the sender's stream. |
| `StreamFraming.LastPacket` | src/decoder.cpp:805-838 | One packet of a run: what it adds to the buffer, takes from it, and settles; a protocol once known stays. |
| `StreamFraming.AnswerIsProtocol` | src/decoder.cpp:818-826 | If the detection engine always answers the same for a flow, that is its protocol from the first bytes on. |
| `StreamFraming.OneWay` | src/protocol/tls.cpp:20-55 | A byte string is complete records and a rest that starts with none in one way only. |
| `StreamFraming.TlsFlowIsFramed` | src/decoder.cpp:153-169 | Over every run of an open TLS flow that fits the buffer: if everything handed out is records followed by a tail that starts with none, then, however it is cut into packets, exactly the records were consumed and exactly the tail is kept. |
| `StreamFraming.TelnetFlowIsScanned` | src/decoder.cpp:826-836 | Likewise for Telnet, cut anywhere but inside subnegotiations: exactly the complete items were consumed, and only the front of a command is kept. |
| `StreamFraming.PlainTelnetFlowIsScanned` | src/protocol/telnet.cpp:23-98 | Without subnegotiations the cut does not matter: data with doubled IACs and commands are consumed exactly, for every cut. |
| `StreamFraming.OtherPacket` | src/decoder.cpp:826-836 | For the decoders outside the model: exactly what they consume is taken from the front of the grown buffer, and nothing when they fail. |
| `Mail.LineAt` | src/protocol/pop3.cpp:14-31 | Exactly when a non-empty line with a terminator is there it is found, and it ends at the first CRLF. |
| `Mail.DecodePop3` | src/protocol/pop3.cpp:14-66 | Success consumes a line and its terminator and never more than there is, and the line is one way to write the message: every field is fixed by the bytes. |
| `Mail.DecodeSmtp` | src/protocol/smtp.cpp:19-64 | Likewise for SMTP, three-digit codes included. |
| `MailRoundTrip.LineReadsBack` | src/protocol/pop3.cpp:14-31 | A line whose terminator is its first CRLF is found at any position, whatever follows. |
| `MailRoundTrip.LineIsStable` | src/protocol/pop3.cpp:14-31 | A line once found is found in every longer buffer. |
| `MailRoundTrip.MailErrors` | src/protocol/pop3.cpp:14-31 | When a line is refused, and how: truncated if and only if nothing is left, malformed if and only if there is no CRLF or it comes at once; SMTP and POP3 alike. |
| `MailRoundTrip.Pop3ReadsBack` | src/protocol/pop3.cpp:14-66 | Every way to write a POP3 message, anywhere in a buffer, decodes to that message and ends behind its line. |
| `MailRoundTrip.SmtpReadsBack` | src/protocol/smtp.cpp:19-64 | Every way to write an SMTP message, anywhere in a buffer, decodes to that message and ends behind its line. |
| `Mail.Pop3CallOnState` | src/decoder.cpp:226-259 | What one call, on either direction, does to the state of any flow. |
| `Mail.Pop3StateIsHistory` | src/decoder.cpp:226-259 | For every two-direction call history: pendingMultiline holds on f if and only if a multi-line command was decoded on the reverse flow after the last response on f; data mode if and only if an awaited success response was decoded and no later buffer on f held the end of data. |
| `Mail.SmtpStateIsHistory` | src/decoder.cpp:205-225 | Data mode holds on f if and only if a 354 reply was decoded on the reverse flow and no later buffer on f held the end of data. |
| `Mail.EndOfDataIsMonotone` | src/decoder.cpp:210-213 | Once a buffer holds the end of data, every longer buffer does. |
| `MailData.EndOfDataInBytes` | src/decoder.cpp:209-213 | The end of data in bytes: a dot line at the front of the buffer or behind a line end. |
| `MailData.MailEndsAtItsEnd` | src/decoder.cpp:209-213 | For every list of lines, the empty one included, dot-stuffed and followed by the dot line (section 3 of RFC 1939, section 4.5.2 of RFC 5321): the mail holds the end of data and no proper prefix of it does. |
| `MailData.MailEndsInFrontOf` | src/decoder.cpp:209-213 | Whatever follows the mail, its end is found with its last byte. |
| `MailData.CommandAwaitsDataIff` | src/decoder.cpp:244-251 | In bytes, for every command word and argument: a multi-line response is awaited on the other direction if and only if the line is RETR or TOP, or LIST or UIDL without an argument. |
| `MailData.StatusStartsDataIff` | src/decoder.cpp:252-257 | In bytes: an awaited response that begins with "+OK" starts the data, one that begins with "-ERR" does not, and neither is awaited any longer. |
| `MailData.ReplyStartsDataIff` | src/decoder.cpp:216-220 | In bytes: of all SMTP reply lines exactly those with code 354 start the data of the other direction. |
| `StreamDataMode.DataModesAreHistory` | src/decoder.cpp:205-259 | After every run of the packet decoder the data modes are those that its calls on both directions prescribe. |
| `StreamDataMode.ChunkInDataMode` | src/decoder.cpp:205-240 | In data mode a chunk is only buffered, and the mode is left if and only if the accumulated buffer holds the end of data. |
| `StreamDataMode.DataModeEndsWithData` | src/decoder.cpp:205-240 | However the message is cut, and whatever packets of other flows and of the reverse direction, and FINs or RSTs without payload, come between, the mode is left with the first bytes that complete an end of data, and until then everything stays buffered. |
| `StreamDataMode.DataModeEndsWithMail` | src/decoder.cpp:205-240 | The same in bytes: for every dot-stuffed mail, the empty one included, and whatever follows it, the mode is left with the packet that brings the last byte of the dot line, however the mail is cut. |
| `StreamDataMode.OthersKeepDataMode` | src/decoder.cpp:205-259 | Packets of other flows and of the reverse direction leave a flow's data mode and buffer alone. |
| `StreamDataMode.MessageIsReadAsProtocol` | src/decoder.cpp:207-215 | Leaving data mode consumes nothing: with the next bytes the first line of the message itself is decoded and consumed as a protocol line; if that line is empty, the buffer stays whole. |
| `StreamDataMode.EmptyFirstLineBlocks` | src/decoder.cpp:205-259 | Once a mail flow's buffer begins with an empty line nothing of the flow is ever consumed again: over every run, in data mode or outside it, the buffer is what it was followed by all that is handed out, as long as it fits. |
| `StreamDataMode.MailInDataModeIsObeyed` | src/decoder.cpp:226-259 | In data mode, a mail that begins with RETR makes the client's direction wait for a multi-line response once more bytes come. |
| `StreamMailSession.InOrderIsDelivered` | src/reassembly.cpp:51-99 | In-order data on a stream with nothing buffered is handed out at once. |
| `StreamMailSession.MailedCommandIsObeyed` | src/decoder.cpp:226-259 | An input from the start, for all flows, sequence numbers and following bytes: the client sends RETR, the server accepts and sends a mail whose first line is RETR; the client's direction then waits for another multi-line response. |
| `StreamMailSession.EmptyListingEnds` | src/decoder.cpp:226-240 | An input from the start: the listing of an empty mailbox enters data mode with the server's "+OK" and leaves it with the dot line alone. |
| `Processor.HashPrefix` | src/processor.cpp:109-115 | The hash loop computes the 64-bit polynomial hash of the first 40 bytes. |
| `ProcessorCode.PacketProcessor.constructor` | src/processor.cpp:73-84 | The workers are created idle; a thread count of zero gives one. |
| `ProcessorCode.PacketProcessor.SubmitBegins` | src/processor.cpp:97-101 | The unlocked `started` check: the call goes on exactly if it saw `started` set. |
| `ProcessorCode.PacketProcessor.ChooseWorker` | src/processor.cpp:103-116 | Round robin takes the ticket modulo the number of workers and advances it, pinning leaves it alone. |
| `ProcessorCode.PacketProcessor.PushItem` | src/processor.cpp:118-122 | The item goes to the end of the chosen worker's queue and nowhere else. |
| `ProcessorCode.PacketProcessor.WorkerSection` | src/processor.cpp:38-54 | After the wait the worker takes the front item, or exits if and only if nothing is queued; both are enabled steps. |
| `ProcessorCode.PacketProcessor.CountItem` | src/processor.cpp:57-68 | The handler's call and the counter are two steps; packetsProcessed goes up by one if decoding succeeded, packetsDropped if not, and the other stays. |
| `ProcessorCode.PacketProcessor.FinishItem` | src/processor.cpp:56-67 | What decoding an item comes to decides: if it returns, the item is handed to the handler and then counted once, as processed if it decoded and as dropped if not; if it hangs, nothing changes and the worker has no step; if it throws, the process ends. |
| `ProcessorCode.PacketProcessor.Start` | src/processor.cpp:139-149 | Undisturbed, start is a run of the step system after which every worker runs; a second start leaves the whole state as it was. |
| `ProcessorCode.PacketProcessor.StartThread` | src/processor.cpp:143-148 | The loop body of start is one step and moves on to the next worker. |
| `Processor.InitialInv` | src/processor.cpp:73-84 | The new processor satisfies the invariant. |
| `Processor.StepKeepsFifo` | src/processor.cpp:34-70 | Every step keeps accepted == handled ++ in flight ++ queue at every worker. |
| `Processor.StepKeepsCount` | src/processor.cpp:56-67 | Every step keeps processed + dropped + uncounted == accepted. |
| `Processor.StepKeepsLifecycle` | src/processor.cpp:139-168 | Every step keeps the agreement of `started`, `running`, the threads and the controller's progress. |
| `Processor.StepKeepsUnattended` | src/processor.cpp:38-54 | A worker without a thread holds exactly what was pushed since. |
| `Processor.StepKeepsInv` | src/processor.cpp:34-179 | Every enabled step of any thread keeps the whole invariant. |
| `Processor.ReachableInv` | src/processor.cpp:34-179 | Every state reached by any interleaving satisfies the invariant. |
| `ProcessorRuns.ExactlyOnceFifo` | src/processor.cpp:34-124 | In every reachable interleaving each worker has accepted exactly what it handled, then at most one item in flight, then its queue, in order; processed + dropped + uncounted = accepted overall. |
| `ProcessorTallies.CameToIsPositions` | src/processor.cpp:57-68 | The tally of a worker is the number of positions in its log at which decoding came to the given result. |
| `ProcessorTallies.StepKeepsTallies` | src/processor.cpp:57-68 | Every enabled step keeps: packetsProcessed is the number of counted items that decoded, packetsDropped the number of those that did not, over all workers. |
| `ProcessorTallies.ReachableTallies` | src/processor.cpp:34-179 | In every reachable state both counters are exactly those numbers, an item handled and not yet counted left out. |
| `ProcessorTallies.StoppedTallies` | src/processor.cpp:97-168 | After a stop with no submission under way they are those numbers for all accepted items. |
| `ProcessorRuns.StartFindsNoThread` | src/processor.cpp:139-149 | start never replaces a thread that is still to be joined. |
| `ProcessorRuns.StoppedHandlesAllIff` | src/processor.cpp:151-168 | After stop, every accepted item was handled exactly once if and only if nothing was pushed to a worker whose thread had gone. |
| `ProcessorRuns.QuiescentStopDrains` | src/processor.cpp:97-168 | If no submit is between its check and its push when stop begins, then after the joins every accepted item has been handled once, in order, and counted. |
| `ProcessorRuns.StopStepDecreases` | src/processor.cpp:38-168 | While stopping, every step of any thread decreases a measure, submissions under way included, except that new calls of submit are refused without effect. |
| `ProcessorRuns.StopIsNeverStuck` | src/processor.cpp:151-168 | While stopping, as long as decoding returns for every item in flight or queued at a worker with a thread, some worker or the controller can move. |
| `ProcessorRuns.StopIsBounded` | src/processor.cpp:97-168 | From any moment of a stop only boundedly many steps can be taken until it returns, whatever the schedule, with any number of submissions under way or beginning meanwhile; refused submissions are not counted. |
| `ProcessorRuns.StopGoesOn` | src/processor.cpp:34-168 | Under that condition every schedule without further pushes keeps it, never ends the process, and can move until stop has returned: with the bound, stop returns. |
| `ProcessorRuns.StopCompletes` | src/processor.cpp:34-168 | Workers and controller alone then bring stop to its end. |
| `ProcessorRuns.StopCanCompleteIff` | src/processor.cpp:34-168 | A stop under way can complete if and only if decoding returns for every item in flight or queued at a worker with a thread; one that hangs or throws blocks it for every schedule. |
| `ProcessorRuns.HangingItemBlocksStop` | src/processor.cpp:56-58 | A run into a state with a hanging item in flight and stop begun, from which no run returns. |
| `ProcessorRuns.ThrowingItemEndsProcess` | src/processor.cpp:56-58 | A run with an item whose decoding throws: it is accepted and not handled, and no step is left. |
| `ProcessorInputs.SelfPointingQueryHangs` | src/protocol/dns.cpp:14-52 | An input of 18 bytes: a query whose name is a pointer to itself is never decoded. |
| `ProcessorInputs.SelfPointingQueryBlocksStop` | src/processor.cpp:151-168 | With that query in flight stop never returns. |
| `ProcessorInputs.AlwaysThrowsIff` | src/defragment.cpp:59-69 | A fragment makes the defragmenter throw, whatever groups it holds, if and only if its header is there and longer than totalLength. |
| `ProcessorInputs.ShortFragmentEndsProcess` | src/decoder.cpp:521-525 | An input: a first fragment of 20 bytes with total length 19 ends the process. |
| `ProcessorRuns.FlushDrainsQueues` | src/processor.cpp:170-179 | With no push since flush began, flush returns only when all queues are empty, and at most the item in flight is unhandled at each worker. |
| `ProcessorRuns.PinnedFlowsKeepOrder` | src/processor.cpp:109-122 | Packets with equal first 40 bytes are handled in the order accepted: handled ones, then those still at their one worker. |
| `ProcessorRuns.OneByteUnpins` | src/processor.cpp:109-116 | "FlowPinned" knows bytes, not flows: packets equal in their first 39 bytes share one of n workers if and only if n divides the difference of their 40th bytes, less 2^64 where exactly one of them wraps the hash around; without that, or if n divides 2^64, if and only if the bytes are congruent modulo n. |
| `ProcessorRuns.HashOfShortData` | src/processor.cpp:109-115 | Two bytes hash to 31 times the first plus the second, and its remainder modulo the number of workers is the worker. |
| `ProcessorBalance.TicketNumbered` | src/processor.cpp:105-107 | With round robin, ticket k goes to worker k modulo their number. |
| `ProcessorBalance.RoundRobinIsBalanced` | src/processor.cpp:105-107 | After every run with at most 2^64 tickets over n workers each was assigned a floor share, and the first ones one more if n does not divide the number of tickets. |
| `ProcessorRuns.LatePushIsLost` | src/processor.cpp:97-122 | The unlocked check: a run after whose stop an item is accepted and not handled. |
| `ProcessorRuns.StoppedIsHalted` | src/processor.cpp:151-168 | After stop no thread is left. |
| `ProcessorRuns.HaltedHandlesNothing` | src/processor.cpp:151-168 | What stop left unhandled stays so through every run without a restart. |
| `ProcessorRuns.RestartHandlesLatePush` | src/processor.cpp:139-149 | After a restart the new thread handles the item. |
| `ProcessorRuns.FlushMissesItemInFlight` | src/processor.cpp:170-179 | A run in which flush returns while the only accepted item is not handled yet. |
| `Defragment.IpDefragmenter.constructor` | src/defragment.cpp:38-40 | A new defragmenter has no groups. |
| `Defragment.IpDefragmenter.Process` | src/defragment.cpp:44-102 | For every header and fragment, cut short or malformed ones included: one packet changes its own group only; the new groups, the result or the exception are those of the specification `Receive`. |
| `Defragment.NextKey` | src/defragment.cpp:83-88 | Ordered iteration: the least key not below the position. |
| `Defragment.Contiguous` | src/defragment.cpp:81-92 | The gap loop finds the size of the fragments if and only if they leave no gap. |
| `Defragment.Join` | src/defragment.cpp:94-99 | The assembly loop joins all fragments in key order. |
| `Defragment.AssembledPlacesFragments` | src/defragment.cpp:81-99 | In a gap-free result every fragment lies at its own offset. |
| `Defragment.ReceiveSlice` | src/defragment.cpp:52-101 | One packet keeps a group's buffer a set of slices of its datagram, and only the datagram can come out. |
| `Defragment.NeverAnythingElse` | src/defragment.cpp:44-102 | Over every history: if the fragments with a given identification, source and destination are slices of one datagram, in any order, overlapping or repeated, and whatever else arrives, malformed or cut short, nothing but that datagram is ever returned for them and no call for them throws. |
| `Defragment.CopyStaysInsideIff` | src/defragment.cpp:59-69 | The copied range lies in the captured bytes if and only if the header is missing or ihl * 4 <= totalLength <= size. |
| `Defragment.ForeignBytesAreStored` | src/defragment.cpp:65-69 | A fragment cut short is filled up with memory behind it. |
| `Defragment.CutShortByTheCapture` | src/defragment.cpp:65-69 | An input: of a packet of 1500 bytes captured up to byte 60, 1440 stored bytes were never captured. |
| `Defragment.ThrowsIff` | src/defragment.cpp:59-69 | The call throws if and only if the header is there and totalLength is less than its length; the group then keeps what it held. |
| `Defragment.UpperOffsetBitsAreLost` | src/defragment.cpp:61 | The byte offset is taken modulo 2^16: a packet is treated as the one with the upper three bits of its offset field cleared. |
| `Defragment.CutHeaderEndsDatagram` | src/defragment.cpp:64-102 | A last fragment shorter than its header ends the datagram: what the group holds without a gap is returned at once if and only if it reaches exactly to the end the header names. |
| `Defragment.Fill` | src/defragment.cpp:59-74 | Copying the payload and noting the last fragment, as specified. |
| `Defragment.SameGroupIff` | src/defragment.cpp:52-54 | Two headers share a group if and only if identification, source and destination agree. |
| `DefragmentCompleteness.TileBufferComplete` | src/defragment.cpp:76-99 | A buffer of tiles is complete if and only if all tiles are in it, and then it amounts to the datagram. |
| `DefragmentCompleteness.TilesInAnyOrder` | src/defragment.cpp:44-102 | For every order with duplicates of the tiles with one identification, source and destination, among any other packets: nothing is returned for them until the last missing tile arrives, then exactly the datagram, and the group is erased. |
| `DefragmentInterleaving.OnlyOwnFragmentsMatter` | src/defragment.cpp:52-54 | What is buffered and returned for a datagram is decided by the fragments with its identification, source and destination alone, whatever arrives between them. |
| `DefragmentInterleaving.CompleteDatagramIsReturned` | src/defragment.cpp:44-102 | A datagram all of whose tiles arrive is returned, among whatever else arrives. |
| `DefragmentInterleaving.BothAreReturned` | src/defragment.cpp:44-102 | Two datagrams that differ in identification, source or destination, interleaved anyhow, are each returned, with a fragment of their own. |
| `DefragmentInterleaving.SendersAreKeptApart` | src/defragment.cpp:52 | An input, for all contents: the first half from one sender and the last from another are not joined. |
| `DefragmentCompleteness.ProtocolsAreMixed` | src/defragment.cpp:8-13 | The group key lacks the protocol of section 3.2 of RFC 791: fragments of two datagrams that differ only there are joined, for all contents. |
| `DefragmentLeftover.CompleteIffEndToEnd` | src/defragment.cpp:76-99 | Whatever a buffer holds, overlapping fragments included: it is complete if and only if a last fragment came and the fragments lie end to end up to the expected size; each is then at its own offset. |
| `DefragmentLeftover.LateDuplicateStays` | src/defragment.cpp:54-78 | A fragment that is not the last and finds no group, as a late duplicate does, opens one and stays in it. |
| `DefragmentLeftover.LeftoverIsHarmlessIff` | src/defragment.cpp:65-99 | A leftover fragment under the next datagram with the same identification: all tiles amount to the datagram and no set of tiles to anything else, if and only if the leftover begins where a tile does and, if it ends where another begins, is a part of the datagram (or is empty, at its end). |
| `DefragmentLeftover.TilesOverLeftover` | src/defragment.cpp:44-102 | Over every run of tiles, in any order and among any other packets: the group holds the arrived tiles over the leftover, and the first set of tiles that amounts to a datagram is what is returned. |
| `DefragmentLeftover.MisplacedLeftoverStays` | src/defragment.cpp:83-88 | A leftover away from the tiles' offsets is never cleared: over every run of tiles nothing is returned for the group. |
| `FlowTable.Table.constructor` | src/flow_table.cpp:8 | A new table is empty. |
| `FlowTable.Table.Update` | src/flow_table.cpp:10-57 | The whole new table: the entry of the canonical id is touched or inserted, and an oldest entry is evicted if and only if the id is new and the table is full; no result exactly where the code erases the end of an empty table. |
| `FlowTable.UpdateIsDefinedIff` | src/flow_table.cpp:31-39 | In every reachable table an update has a defined effect if and only if maxFlows is positive. |
| `FlowTable.FindOldest` | src/flow_table.cpp:32-38 | The eviction scan finds a minimal lastSeen in every iteration order. |
| `FlowTable.Table.Lookup` | src/flow_table.cpp:59-66 | Finds exactly the stored entry of the id as given. |
| `FlowTable.Table.CleanupExpired` | src/flow_table.cpp:68-83 | Removes exactly the expired entries, in every iteration order, and returns the number of those last updated more than flowTimeout before now. |
| `Flow.BytesLessTrichotomy` | include/fdpi/address.hpp:91-92 | The byte order of addresses is total and antisymmetric. |
| `Flow.IpLessTrichotomy` | src/flow_table.cpp:18-22 | Addresses of either version are totally ordered. |
| `Flow.BytesLessIff` | include/fdpi/address.hpp:91-92 | The byte order is lexicographic: the first difference decides. |
| `Flow.FiledDirection` | src/flow_table.cpp:13-27 | The filed direction goes from the lower end to the higher: IPv4 before IPv6, then the address bytes, then the port. |
| `Flow.NormalizeIdentifiesDirections` | src/flow_table.cpp:13-27 | normalise(a) = normalise(b) if and only if a = b or a = reverse(b); the result is canonical and normalising is idempotent. |
| `FlowTable.EntriesAreHistory` | src/flow_table.cpp:10-83 | For every history an id has an entry if and only if it is canonical and updated since it was last removed, and the entry holds its id, first and last time, and exactly the count and bytes of those updates. |
| `FlowTable.CleanupLeavesIff` | src/flow_table.cpp:68-83 | After every history, a cleanup leaves exactly the conversations whose last update is at most flowTimeout before now or in its future, each entry as it was. |
| `FlowTable.EvictsOldestIff` | src/flow_table.cpp:24-40 | After every history, an update evicts if and only if its conversation is not live and maxFlows are; what it evicts is live, no live conversation was last updated before it, and it is gone afterwards. |
| `FlowTable.SizeIsBounded` | src/flow_table.cpp:31-39 | The table never holds more than maxFlows entries, zero included. |
| `FlowTable.LookupNeedsCanonical` | src/flow_table.cpp:59-66 | An id is found if and only if it is given in the canonical direction and its conversation is live. |
| `FlowTable.CountsAreConserved` | src/flow_table.cpp:10-83 | Live plus retired packet and byte counts equal the totals of all updates. |
| `AddressCode.ParseGroupList` | src/address.cpp:55-68 | The splitting loop returns the groups between single colons and fails on an empty or oversized one. |
| `AddressCode.Layout` | src/address.cpp:90-108 | Left groups, zeros and right groups are written big-endian to the sixteen bytes. |
| `AddressCode.ParseIPv6Address` | src/address.cpp:50-109 | The constructor accepts exactly the specified texts and lays out their groups. |
| `AddressCode.FindBestRun` | src/address.cpp:151-171 | The scan finds the leftmost longest run of zero groups. |
| `AddressCode.PrintGroups` | src/address.cpp:173-187 | The printing loop writes the groups with the given run compressed. |
| `AddressCode.IPv6ToString` | src/address.cpp:144-188 | The printed form compresses exactly the leftmost longest run of at least two zero groups (sections 4.2.2 and 4.2.3 of RFC 5952). |
| `Address.NumeralReadsBack` | src/address.cpp:139-188 | A printed group or octet reads back and has no leading zero (section 4.1 of RFC 5952). |
| `Address.CompressedReadsBack` | src/address.cpp:50-109 | Compressing any run of zeros, not only the canonical one, is undone by the parser. |
| `Address.CanonicalReadsBack` | src/address.cpp:50-109 | Parsing the canonical text of any address gives the address back. |
| `Address.CanonicalIsBijective` | src/address.cpp:144-188 | Canonical texts and addresses correspond one to one. |
| `Address.GroupsAndBytes` | src/address.cpp:92-98 | Splitting bytes into groups and writing groups as bytes are inverse. |
| `AddressCode.PrintThenParse` | src/address.cpp:50-188 | Through the code: for every sixteen bytes, parsing the printed form gives them back. |
| `AddressCode.ParseThenPrint` | src/address.cpp:50-188 | Through the code: printing a parsed text gives the canonical text of the same address, and canonical texts are fixed. |
| `AddressCode.ParseIPv4Address` | src/address.cpp:11-35 | The octet loop accepts exactly four decimal octets up to 255 between dots. |
| `AddressCode.IPv4ToString` | src/address.cpp:139-142 | The printed form is the dotted one and parses back to the four bytes. |
| `Address.OctetsReadBack` | src/address.cpp:11-35 | Dotted octets parse back, from any octet on. |
| `AddressCode.ParseMacAddress` | src/address.cpp:111-137 | Accepts exactly six pairs of hexadecimal digits with one separator, colon or dash, throughout. |
| `AddressCode.MacToString` | src/address.cpp:190-200 | The printed form has two digits per byte and parses back to the six bytes. |
| `Address.MacReadsBack` | src/address.cpp:111-137 | The text with either separator parses back. |
| `AddressCase.DigitsAre` | src/address.cpp:39-46 | Exactly the digits and the letters a to f in either case count as hexadecimal, the two cases of a letter alike. |
| `AddressCase.IPv6IgnoresCase` | src/address.cpp:50-109 | Texts that differ only in the case of digits denote the same IPv6 address, or none. |
| `AddressCase.MacIgnoresCase` | src/address.cpp:111-137 | Likewise for MAC addresses. |
| `AddressCase.LeadingZeroIsIgnored` | src/address.cpp:24-28 | A leading zero changes neither whether a number is accepted nor its value. |
| `AddressGrammar.NumberIsReadIff` | src/address.cpp:24-46 | A number is read from a text if and only if it is in range and the text is its numeral behind any number of zeros, letters in either case. |
| `AddressGrammar.PartIsReadIff` | src/address.cpp:55-68 | Groups are read from a part of a text if and only if it lists their spellings with single colons between them. |
| `AddressGrammar.IPv6IsReadIff` | src/address.cpp:50-109 | The IPv6 constructor accepts a text as an address if and only if it lists its eight groups, or lists the groups around a run of zeros with a double colon in place of the run. |
| `AddressGrammar.IPv4IsReadIff` | src/address.cpp:11-35 | The IPv4 constructor accepts a text as an address if and only if it lists its four octets between dots, leading zeros allowed. |
| `AddressGrammar.MacIsReadIff` | src/address.cpp:111-137 | The MAC constructor accepts a text as an address if and only if it is the printed form, with colons or with dashes throughout, letters in either case. |
| `AddressGrammar.FirstOfEqualRuns` | src/address.cpp:151-188 | The example of section 4.2.3 of RFC 5952: of two equally long zero runs the first is compressed. |
| `DnsName.DecodeName` | src/protocol/dns.cpp:11-74 | Wherever it terminates, the loop returns the dot-join of the recursively specified labels or the specified error, and the position just past the first pointer or the zero byte. |
| `DnsName.ReadPointer` | src/protocol/dns.cpp:36-52 | A pointer's target, or its error. |
| `DnsName.TerminationIsDecidable` | src/protocol/dns.cpp:14-17 | The loop terminates if and only if it does within as many labels and jumps as there are bytes. |
| `DnsName.VisitedOnce` | src/protocol/dns.cpp:23-66 | No position is visited twice on a way that ends. |
| `DnsName.PriorOccurrencesTerminate` | src/protocol/dns.cpp:36-52 | If every pointer targets an offset before the label run it ends (section 4.1.4 of RFC 1035), the name is decoded. |
| `DnsName.SelfPointerNeverHalts` | src/protocol/dns.cpp:14-17 | The depth guard is never advanced: a pointer to itself is followed forever. |
| `DnsName.PlainName` | src/protocol/dns.cpp:23-66 | An uncompressed name, anywhere in a buffer, decodes to its labels and ends behind its zero byte. |
| `DnsName.CompressedName` | src/protocol/dns.cpp:36-66 | Labels followed by a pointer decode to those labels and the labels at the target, and end behind the pointer. |
| `DnsNameText.DotsBetween` | src/protocol/dns.cpp:62-65 | A name is its first label, the byte 0x2E, and the name of the other labels. |
| `DnsNameText.LabelsComeBackIff` | src/protocol/dns.cpp:62-65 | For every list of labels, splitting the name at its dots gives the labels back if and only if no label contains a dot. |
| `DnsNameText.DotInLabelIsLost` | src/protocol/dns.cpp:62-65 | An input: one label with a dot in it and two labels give the same name. |
| `DnsErrors.NameErrors` | src/protocol/dns.cpp:23-66 | Behind any number of labels: a reserved length octet or a pointer beyond the data is malformed, a pointer or a label that is cut off is truncated. |
| `DnsErrors.NameMayEndWithData` | src/protocol/dns.cpp:23-66 | A name that the data ends without a zero byte is taken as complete. |
| `Dns.DecodeQuestion` | src/protocol/dns.cpp:76-96 | Fields, errors and end position of a question. |
| `Dns.DecodeRecord` | src/protocol/dns.cpp:98-132 | Fields, errors and end position of a record. |
| `Dns.DecodeQuestions` | src/protocol/dns.cpp:165-170 | The question loop: the items in order, or the first error. |
| `Dns.DecodeRecords` | src/protocol/dns.cpp:172-191 | The record loops: the items in order, or the first error. |
| `Dns.DecodeDns` | src/protocol/dns.cpp:136-195 | The message and the offset behind it, or the first error. |
| `DnsErrors.ItemErrors` | src/protocol/dns.cpp:76-132 | A question or record fails if and only if its name does, with the same error, or its fields or data are cut off, as truncated. |
| `DnsErrors.FirstErrorIsTheSections` | src/protocol/dns.cpp:165-191 | A section fails with the error of its first item that fails. |
| `DnsErrors.MessageErrors` | src/protocol/dns.cpp:136-195 | A message fails with the error of its first section that fails, in the order of the sections, with the counts read from their own places; without twelve bytes of header it is truncated. |
| `DnsRoundTrip.FlagsReadBack` | src/protocol/dns.cpp:149-156 | All seven flag fields are recovered from the packed word. |
| `DnsRoundTrip.QuestionReadsBack` | src/protocol/dns.cpp:76-96 | An encoded question decodes to itself and ends where its encoding ends. |
| `DnsRoundTrip.RecordReadsBack` | src/protocol/dns.cpp:98-132 | An encoded record decodes to itself, data included, and ends where its encoding ends. |
| `DnsRoundTrip.SectionReadsBack` | src/protocol/dns.cpp:165-191 | A whole section reads back in order. |
| `DnsRoundTrip.MessageReadsBack` | src/protocol/dns.cpp:136-195 | For every header and four sections with uncompressed names, at every start offset and whatever follows, decoding the encoding of section 4.1 of RFC 1035 returns the message and advances exactly to its end. |
| `DnsCompression.SpelledName` | src/protocol/dns.cpp:11-74 | Every way to write a name, with any number of pointers, decodes to all its labels and ends behind its own bytes. |
| `DnsCompression.SectionDecodes` | src/protocol/dns.cpp:165-191 | Items that stand one behind the other are decoded in order. |
| `DnsCompression.CompressedMessageReadsBack` | src/protocol/dns.cpp:136-195 | However the names of a message are compressed, a buffer that holds it from an offset on decodes to it and the offset advances exactly to its end. |
| `DnsCompression.AnswerNamesTheQuestion` | src/protocol/dns.cpp:136-195 | The usual answer, for every name, data and flags: a record whose name is a pointer to offset 12 gets the question's name. |
| `Tls.ReadCipherSuites` | src/protocol/tls.cpp:91-93 | The cipher suite loop, odd lengths and the byte behind the buffer included. |
| `Tls.ReadProtocols` | src/protocol/tls.cpp:155-165 | The ALPN loop returns the names up to the first that does not fit. |
| `Tls.ReadMaxVersion` | src/protocol/tls.cpp:171-179 | The version loop returns the largest listed version within both limits. |
| `Tls.ReadExtensions` | src/protocol/tls.cpp:134-193 | The extension loop applies each complete extension in order and stops at the first that does not fit. |
| `Tls.DecodeTls` | src/protocol/tls.cpp:20-197 | For every buffer: the record, what its hello says and the offset behind it; incomplete or foreign records are errors that leave the offset. |
| `Tls.RecordErrors` | src/protocol/tls.cpp:20-48 | Which error, and exactly when: truncated if and only if the header or the announced content is not all there, malformed if and only if the content type is none of 20 to 23. |
| `Tls.NothingIsExtracted` | src/protocol/tls.cpp:50-88 | No suites, names, protocols or version come from a record of another type, another handshake message, or a hello of which too little is there. |
| `Tls.CipherReadsStayInsideIff` | src/protocol/tls.cpp:85-93 | Every pair the loop reads lies in the buffer if and only if the list is not of odd length at its end. |
| `Tls.LastSuiteIsForeign` | src/protocol/tls.cpp:91-93 | An odd list that ends the buffer yields a last suite whose low byte was never sent. |
| `Tls.RecordIgnoresBeyondIff` | src/protocol/tls.cpp:20-197 | What is decoded is independent of memory behind the buffer if and only if the record is readable. |
| `Tls.OneByteListReadsPast` | src/protocol/tls.cpp:85-93 | An input: a ClientHello with a one-byte cipher list. |
| `TlsRecordCut.RecordIgnoresWhatFollowsIff` | src/protocol/tls.cpp:53-197 | For every buffer that ends with its record: what is decoded from the record is the same whatever follows, in the buffer and in memory, if and only if it is no handshake, its first payload byte says that it is no hello, or its fields lie inside up to the cipher suites, an odd list not at the end. |
| `TlsRecordCut.SuitesFromTheNextBytes` | src/protocol/tls.cpp:78-93 | An input: the same 44-byte record reports no suites alone, and one made of the next bytes when they follow. |
| `TlsClientHello.ExtensionReadsBack` | src/protocol/tls.cpp:142-190 | One encoded extension has exactly the effect of its content, also where its list is cut short, followed by more, or not read. |
| `TlsClientHello.ExtensionsReadBack` | src/protocol/tls.cpp:134-193 | An encoded list of extensions is applied in order, to its end or up to an extension that is cut off. |
| `TlsClientHello.SingleExtensionsAreFound` | src/protocol/tls.cpp:134-193 | Of a list with at most one extension of a kind, that extension's content is what is reported, wherever it stands; a cut name and an empty version list report nothing. |
| `TlsClientHello.ClientHelloReadsBack` | src/protocol/tls.cpp:20-197 | For every single-record ClientHello with cipher suites of even length, wherever it stands, its extension block absent, complete, cut off or followed by more: the decoder returns exactly its cipher suites, host name, protocols in order and largest listed version. |
| `TlsServerHello.ServerExtensionReadsBack` | src/protocol/tls.cpp:142-190 | One encoded extension of a ServerHello has the effect of its content; the version extension holds the selected version, or nothing if it is cut short. |
| `TlsServerHello.ServerHelloReadsBack` | src/protocol/tls.cpp:104-193 | For every single-record ServerHello, wherever it stands, its extension block absent, complete, cut off or followed by more: the decoder returns exactly its one cipher suite and what its extensions say, the selected version included. |
| `TlsFraming.DecodeTlsCase` | src/decoder.cpp:153-169 | The loop over further records terminates and consumes up to the first that is not complete. |
| `TlsFraming.RecordsFramed` | src/decoder.cpp:155-164 | Complete records from any offset on are all reported in order, and nothing behind them is consumed. |
| `TlsFraming.Framing` | src/decoder.cpp:153-169 | On complete records followed by a tail that starts with none, exactly the records are consumed and each content type and version is reported in order (section 5.1 of RFC 8446). |
| `TlsFraming.IncompleteIsKept` | src/decoder.cpp:153-169 | The case fails, and so consumes nothing, if and only if the buffer does not start with a complete record. |
| `TlsFraming.RecordIsFoundIff` | src/protocol/tls.cpp:20-48 | A record is found at the front of a buffer if and only if a complete one with a content type from 20 to 23 stands there. |
| `TlsFraming.RecordsContinue` | src/decoder.cpp:153-169 | The records of a longer buffer are those complete before, then those found behind them. |
| `TlsFraming.CutAnywhere` | src/decoder.cpp:153-169 | Wherever the stream is cut, framing the first part, keeping what was not consumed, appending the rest and framing again finds the headers and positions of the records of the whole. Hello fields can change with the cut; `TlsRecordCut` says when. |
| `Telnet.SkipToEnd` | src/protocol/telnet.cpp:55-61 | The loop finds the first IAC SE, if there is one. |
| `Telnet.FindEnd` | src/protocol/telnet.cpp:55-61 | What the first IAC SE is. |
| `Telnet.DecodeTelnet` | src/protocol/telnet.cpp:17-98 | The loop returns the segments, the commands and the offset of the recursive meaning of the bytes. |
| `TelnetProperties.ItemsReadBack` | src/protocol/telnet.cpp:17-98 | Decoding inverts encoding at every position, IAC doubled in data and in parameters, adjacent data coming out as one segment. |
| `TelnetProperties.EncodedItemsDecode` | src/protocol/telnet.cpp:17-98 | For every list of non-adjacent data segments, commands and subnegotiations without an IAC directly before an SE in option and parameters, the decoder returns exactly the segments and the commands in order. |
| `TelnetProperties.SubReadsBackIff` | src/protocol/telnet.cpp:48-68 | A subnegotiation whose parameters have each IAC doubled (RFC 855) is read back, to its end, if and only if no IAC in its option and parameters is directly followed by a parameter 240. |
| `TelnetProperties.EscapeKeepsEnds` | src/protocol/telnet.cpp:55-61 | Doubling neither hides an IAC SE nor makes one. |
| `TelnetProperties.OpenSubIsReported` | src/protocol/telnet.cpp:48-68 | Behind every list of items, an unterminated subnegotiation takes all that is there, and its beginning is reported with its option unless not even the option has arrived. |
| `TelnetProperties.ScanShifted` | src/protocol/telnet.cpp:17-98 | Decoding from a position depends on the bytes from there on only. |
| `TelnetProperties.SplitOutsideSub` | src/protocol/telnet.cpp:17-98 | If the first part does not stop inside an unterminated subnegotiation, decoding it, keeping the tail, appending the rest and decoding again gives the same data and commands. |
| `TelnetProperties.SplitIffOutsideSub` | src/protocol/telnet.cpp:48-68 | The result is independent of the cut for all continuations if and only if the first part does not stop inside an unterminated subnegotiation. |
| `Asn1.ReadTag` | src/protocol/asn1.cpp:5-11 | The tag and the cursor behind it, or the error and the cursor as it was. |
| `Asn1.ReadLength` | src/protocol/asn1.cpp:13-37 | Length, error and cursor in each form. |
| `Asn1.ReadInteger` | src/protocol/asn1.cpp:39-64 | Value in int64_t arithmetic, error and cursor. |
| `Asn1.ReadOctetString` | src/protocol/asn1.cpp:66-85 | Content, error and cursor. |
| `Asn1.SkipValue` | src/protocol/asn1.cpp:87-102 | Content length, error and cursor. |
| `Asn1.LengthsAreExact` | src/protocol/asn1.cpp:13-37 | The reader succeeds if and only if a definite form with at most four length octets is there (section 8.1.3 of ITU-T X.690), with the length it denotes and the cursor behind it. |
| `Asn1.LengthErrors` | src/protocol/asn1.cpp:13-37 | Nothing there or octets missing is truncated, the indefinite form or more than four octets malformed, each with the cursor as the code leaves it. |
| `Asn1.ReaderErrors` | src/protocol/asn1.cpp:39-102 | Each way in which a typed reader or skipping fails: missing or foreign tag, bad length, content cut off, an empty integer, each with its error and the cursor as the code leaves it. |
| `Asn1.IntegersAreTwosComplement` | src/protocol/asn1.cpp:39-64 | The value is the two's-complement value of the content (section 8.3 of ITU-T X.690) for 1 to 8 octets and congruent to it modulo 2^64 for more. |
| `Asn1.ReadersAgreeWithSkip` | src/protocol/asn1.cpp:39-102 | A typed reader succeeds if and only if skipping does, the tag is its own and an integer is not empty; it then leaves the cursor where skipping would. |
| `Asn1.EncodedValueIsSkipped` | src/protocol/asn1.cpp:39-102 | An encoded value is skipped to its end and reads back. |

## Left out

- The protocol detection engine: its answer for a packet is a field of the packet, so every answer is covered.
- The L7 decoders other than SMTP, POP3, TLS, Telnet and DNS: an arbitrary function that consumes at most the buffer; they would only add easier members.
- StreamDecoder.DecodeL7: the DNS case (src/decoder.cpp:115-131) is not in it, because a call that does not terminate has no place in a total function; it is one of the arbitrary decoders, and `Dns.DecodeDns` models the decoder itself.
- StreamDecoder.PacketDecoder.DecodeL7Of: likewise without the DNS case.
- Link, network and transport headers and the datalink table: straight byte extraction; parsed headers are given.
- The contents of `pkt.layer7`: the stream model keeps how many bytes a decode consumes and the mail states it leaves.
- Mutexes, condition variables and memory ordering: each locked section or atomic operation is one step, and a waiting thread may go on once its condition holds.
- Concurrent calls of start, stop and flush: one thread controls the processor, as its interface suggests; any number of threads submit.
- Worker decoders' state and handler callbacks: a handled item is appended to a log, and what decoding and the handler's call come to (success, error, no return, an exception) is an arbitrary function of the item and those the worker handled before; `ProcessorInputs` ties it to the DNS decoder and the defragmenter for two inputs.
- `forEach` and `size` of the flow table, its lock, and the quality of the flow hash; map iteration order is arbitrary.
- `detectedProtocol` of a flow's metadata, which nothing sets, and `firstSeen` and `lastSeen` of stream and fragment buffers, which nothing reads.
- `cleanupExpired` of the reassembler and the defragmenter, which are stubs, and their stream and group limits, which nothing enforces.
- Overflow of `size_t` sums of buffer lengths and of the 64-bit packet and byte counters: these are unbounded integers here; `Accounting` shows that the one subtraction never goes below zero.
- Times are integers; packet timestamps are arbitrary, not increasing.
- DnsName.DecodeName: is about the inputs on which the call terminates; on all others it never returns.
- Dns.DecodeQuestion: likewise.
- Dns.DecodeRecord: likewise.
- Dns.DecodeQuestions: likewise.
- Dns.DecodeRecords: likewise.
- Dns.DecodeDns: likewise.
- DnsRoundTrip.MessageReadsBack: encodes names without compression; messages with compression are the subject of `DnsCompression.CompressedMessageReadsBack`, which is about layouts: no compressing encoder is modelled.
- DefragmentLeftover.LeftoverIsHarmlessIff: is about one leftover fragment that is not a last one; several leftovers, or an expected size left over, are not covered.
- ReassemblyNewStream.NewStreamIsSafeIff: is about arrivals of the new stream alone after its SYN, and about streams shorter than 2^31.
- ReassemblyCompleteness.TcpCompleteness: is about streams shorter than 2^31, where the signed comparison is right (`SeqOrderFailsAtHalf`), that fit maxStreamBytes.
- ReassemblySafety.TcpSafety: is about streams shorter than 2^32, where sequence numbers are unique, in runs without a later SYN (`RepeatedSynRedelivers`).
- Streams, groups and mail states are maps of values held in fields of the decoder, as in the source; references into them are written back explicitly.
- Defragment.IpDefragmenter.Process: reading behind the captured bytes has no defined effect in C++; the model gives it arbitrary bytes, and gives a copy that would end before it begins the exception that std::vector throws for it.
- Tls.DecodeTls: likewise gives the byte behind the buffer an arbitrary value.
- FlowTable.Table.Update: erasing the end iterator has no defined effect; the model returns nothing and leaves the table.
- ReassemblyOffsets.RunPictured: is about streams shorter than 2^31, where the signed comparison is right.
- ReassemblyCompleteness.DeliversExactlyReachable: leaves out runs in which the size check turns a new part away; `RunPictured` covers them.
