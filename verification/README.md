# Verified model of the CORECONF client stack

A Dafny model of the protocol stack that talks YANG-modelled configuration to a device over a serial link: MUP1 frames
(`mup1`), CoAP with blockwise transfer (`coap`), CBOR (`cbor`), and the SID-CBOR codec with its schema arena and identity
graph (`yang`). Run `dafny verify dfyconfig.toml` to check everything.

The parts of the original that update fields, cursors, buffers or vectors in place are classes and methods with loops
here; each is proved equal to a small reference definition (a parser with a log, a grammar, a session state machine, a
relation on a graph), and the properties below are theorems about those definitions, for all inputs and all runs.

A round trip alone would also hold for a codec that swaps two bytes both ways. The modules ending in `Layout` (and
`BigEndian`, `Utf8`, `CoapOutcome`, `YangDerivation`) therefore state, for all inputs and in numbers, what stands on the
wire and what is read of it: the place of every byte, the SID arithmetic of every key, the check that a receiver makes of a
checksum, which message decides how an exchange ends.

## Layers and main theorems

**MUP1 framing** (`Checksum`, `ChecksumLayout`, `Frame`, `FrameLayout`, `FrameParser`, `FrameMachine`, `FrameDecoder`,
`FrameRoundTrip`, `FrameRun`, `FrameReplay`, `FrameChunking`, `FrameHazard`). The reference parser keeps a log of what
every received byte became: part of a decoded frame's wire span, a swallowed CR or LF, a dropped byte, or raw content.
`FrameMachine` adds what the code does beyond it: the recorded payload end, which a read of raw content leaves too
large, and the queue of frames read back from the buffer. `FrameDecoder.Decoder` is the byte-fed decoder over its one
buffer; `Valid()` ties all its fields to the machine and holds in every state it reaches. `FrameReplay.Replay` makes any
sequence of inject, tick and get calls, and what comes out is what `FrameRun.RunCode` says. For every such run, the
frames handed out and queued are the log's, each on the wire as one consecutive checked span, and the bytes received are
fully accounted for, exactly when no frame was completed after such a read in front of it
(`FrameRun.CodeConservedExactly`; frame by frame, `FrameRun.FrameExactly`; `FrameRoundTrip` proves the same of the
reference parser, without the condition). An encoded frame is queued from any state outside an escape or a checksum
(`FrameRun.EncodedFrameIsQueued`), and encoded streams decode to themselves, however they are cut into reads
(`FrameRoundTrip.StreamRoundTrip`, `FrameChunking.AnyChunking`). `Stack.RequestsArrive` carries this through to parsed
CoAP requests. `FrameLayout.SpanDecides` says of any span, whoever wrote it, whether it becomes a frame: its checksum
has to pass the check of RFC 1071 or be the mark `0000` (`ChecksumLayout.InternetVerifies`), or be the CRC-32.

**CoAP** (`CoapMessage`, `CoapRequest`, `CoapLayout`, `CoapCodec`, `CoapOverflow`, `CoapSession`, `CoapOutcome`,
`CoapTransfer`, `CoapClient`). The option encoding is a bijection between option lists and bytes; a request survives
encoding and parsing. An exchange is a transition system: each round delivers any batch of messages and says whether the
deadline has passed. Whatever arrives, uploads stay inside the body and all frames of one message id are identical and
at most six. When replies are lost, repeated and reordered but genuine, the response is at every moment a prefix of the
server's, and exactly it when the exchange ends on a single copy of the final reply. Told by what was delivered,
`CoapOutcome.RoundEnds` says when an exchange ends and how, and `CoapClient.RunReports` what the caller gets.

**CBOR** (`BigEndian`, `Utf8`, `Cbor`, `CborLayout`, `CborParse`, `CborRoundTrip`, `CborShortest`, `CborCodec`).
`Cbor.Item` is the wire grammar with all five argument widths and the indefinite forms; decoding is sound and complete
for it. The canonical encoder is one of its renderings; `CborShortest.Best` is a shortest one, and
`CborShortest.ShorterExactly` says when the two differ in length.

**SID-CBOR codec and schema** (`YangBits`, `YangBitsOverflow`, `YangText`, `YangCanon`, `YangLeaf`, `YangBody`,
`YangRoundTrip`, `YangIid`, `YangIidRoundTrip`, `YangSequence`, `YangWitness`, `YangSchema`, `YangArena`, `YangBuilt`,
`YangIdentity`, `YangIdentityArena`, `YangIdentityCheck`, `YangDerivation`, `YangTextLayout`, `YangLeafLayout`,
`YangBodyLayout`, `YangNodeLayout`, `YangIidLayout`, `YangMessageLayout`, and the method files ending in `Codec`).
Canonical spellings of numbers, base64 and bit names are defined on the text (`YangCanon`); of what a leaf type accepts,
exactly the values in that spelling come back (`YangLeaf.LeafExactly`). The mutual recursion over schema nodes is
modelled for any leaf encoding, and instantiated with the modelled leaf types. `YangBuilt.BuiltTreeRoundTrip` joins the
layers: on a schema built by the arena with distinct SIDs, canonical trees come back from their bytes.
`YangBodyLayout.BodyWritten` and `BodyRead` give the keys of every map, `StrictExactly` the bodies that are accepted.

## Where the code does less than one might expect

Each of these is proved with a concrete input and, for all inputs, with the exact condition under which the code is right.

- Reading raw content from the decoder removes it from the front of the buffer without correcting the recorded end of an
  open frame's payload. What the decoder hands out is authentic and complete exactly when no frame is completed after such
  a read in front of it (`FrameRun.CodeConservedExactly`). With one stray byte in front, the frame with payload `x` comes
  out with the payload `x` and EOF (`FrameHazard.DrainCorrupts`, `FrameReplay.DrainedFrame`); with six to ninety-nine
  the decoder fails on an index (`FrameHazard.DrainCrashes`, `FrameReplay.DrainedCrash`). On a line that carries nothing
  but encoded frames it does not happen as long as no tick gives an open frame up (`FrameChunking.AnyChunking`).
- A further copy of the final acknowledgement in the same poll is appended to the response: the result is right exactly
  when the last batch holds one copy, or the response is empty (`CoapTransfer.ExactlyOnceTransfer`,
  `CoapTransfer.DuplicateInOneBatch`).
- The message parser's 16-bit additions overflow on some received messages (`CoapRequest.OverflowIsReachable`), exactly
  those with ordinary options followed by one that asks for more than sixteen bits (`CoapOverflow.OverflowExactly`).
- CBOR integers outside the range of majors 0 and 1 lose their high bits on encoding; a value survives exactly when all
  its integers are in range (`CborRoundTrip.RoundTripInContext`), and the first one beyond is read as zero
  (`CborRoundTrip.BigIntegerWraps`).
- The encoder does not always write the shortest form. Some encoding is shorter exactly when the value holds an array or
  map of 256 or more, or a string of 2^32 to 2^32 + 22 bytes, which is shorter in two chunks
  (`CborShortest.ShorterExactly`; `CborRoundTrip.IndefiniteCanBeShorter`, `CborShortest.LongStringCutsShorter`).
- Offsets and positions of a bits value are 32-bit sums and products. They overflow exactly when spans and gaps add up to
  2^32 bytes or a bit is set at a position beyond 32 bits (`YangBitsOverflow.OverflowExactly`,
  `YangBitsOverflow.OverflowIsReachable`); what is encoded never does (`YangBitsOverflow.EncodedNeverOverflows`).
- Decoded instance identifiers show choices and cases that encoding looks through: a path comes back unchanged exactly
  when there are none on its chain (`YangIidRoundTrip.PathRoundTrip`, `YangWitness.ChoicePathComesBackLonger`).
- In a fetch, ipatch or post entry a leaf of type empty is written as null and read back as the absence of a value: an
  entry with a value comes back unchanged exactly when its node is no such leaf, the path apart
  (`YangSequence.PairRoundTrip`, `YangWitness.EmptyLeafComesBackAsNull`).

## Model

| member | source | states |
|---|---|---|
| Checksum.InetSumFitsU32 | mup1/src/checksum.rs:54-64 | Feeding up to 65535 bytes, as many as a 16-bit position allows, never overflows the 32-bit sum |
| Checksum.FoldTwiceCongruent | mup1/src/checksum.rs:98-103 | Two folds always leave a 16-bit value congruent to the sum modulo 65535, zero only for zero |
| Checksum.InternetDetectsSubstitution | mup1/src/checksum.rs:54-103 | Changing any one byte fed changes the four hex digits |
| Checksum.CrcDetectsSubstitution | mup1/src/checksum.rs:54-96 | Changing any one byte of a message of any length changes the five CRC-32 symbols |
| Checksum.TableStepIsBitwise | mup1/src/checksum.rs:115-142 | On every register value, a table look-up equals eight single-bit shifts of the reflected CRC-32 |
| Checksum.CrcBitsLinear | mup1/src/checksum.rs:117-142 | The shift register is linear over exclusive-or, for any number of steps |
| Checksum.BuildCrc32Table | mup1/src/checksum.rs:117-142 | The loop fills an array with exactly the 256 bitwise images of the index |
| Checksum.TableStep | mup1/src/checksum.rs:54-71 | One byte through the table moves the register as the bitwise CRC does |
| Checksum.Base128Encode | mup1/src/checksum.rs:155-170 | The five symbols are the base-128 digits of the value, most significant first |
| Checksum.Base128DecodeDigit | mup1/src/checksum.rs:172-178 | A digit is found exactly for the bytes of the alphabet, and names that symbol |
| Checksum.Base128Decode | mup1/src/checksum.rs:180-193 | A value is returned exactly when five symbols denote one |
| Checksum.Base128RoundTrip | mup1/src/checksum.rs:155-193 | The symbols of a 32-bit value denote that value and no other |
| Checksum.Base128AvoidsControlBytes | mup1/src/checksum.rs:144-153 | No checksum symbol is SOF, EOF, ESC, 0x00 or 0xFF |
| Checksum.Running.Update | mup1/src/checksum.rs:54-71 | Each byte joins what has been fed; the accumulator keeps standing for its checksum |
| Checksum.Running.Finalize | mup1/src/checksum.rs:73-96 | The wire bytes are the checksum of everything fed, in the form of its kind, which `ChecksumLayout` gives in numbers |
| ChecksumLayout.InternetVerifies | mup1/src/checksum.rs:98-103 | Read as a lower-case hexadecimal number, the four bytes make the sum of all 16-bit words a multiple of 0xFFFF, as RFC 1071 has a receiver check it; they are `ffff` exactly when there is nothing to sum |
| ChecksumLayout.OnlyOneVerifies | mup1/src/checksum.rs:73-103 | No other 16-bit number passes that check |
| ChecksumLayout.CheckValue | mup1/src/checksum.rs:115-142 | The register, complemented, has the published CRC-32 check value CBF43926 for the text 123456789 |
| ChecksumLayout.CheckWire | mup1/src/checksum.rs:54-96 | On the wire that is the symbols 40 DD CE F0 5A |
| ChecksumLayout.Alphabet | mup1/src/checksum.rs:144-153 | The 128 symbols are those of the firmware's table, row by row |
| ChecksumLayout.SymbolsOf | mup1/src/checksum.rs:155-170 | The symbol in place i stands for the value divided by 128 to the power of the places behind it, modulo 128 |
| ChecksumLayout.SentinelIs | mup1/src/checksum.rs:109-111 | The mark that asks for no check is `0000`, and CRC-32 has none |
| Frame.Encode | mup1/src/frame.rs:71-102 | A frame is SOF, type, stuffed payload, the EOFs of the parity rule, the checksum of the logical bytes, CR, LF; `FrameLayout.FrameBytes` says which bytes these are |
| Frame.StuffPayload | mup1/src/frame.rs:76-90 | The loop feeds the payload unescaped and emits it stuffed |
| Frame.EscapeRoundTrip | mup1/src/frame.rs:40-58 | Unstuffing a stuffed payload gives the payload back |
| Frame.InternetFeedIsEven | mup1/src/frame.rs:91-96 | The padding rule always feeds the Internet checksum whole 16-bit words |
| FrameLayout.FrameBytes | mup1/src/frame.rs:71-102 | Byte by byte: 3E, type, payload with 3E 3C 5C 00 FF written as 5C 3E, 5C 3C, 5C 5C, 5C 30, 5C 46, one 3C or two, a checksum that a receiver verifies, 0D 0A |
| Frame.FrameWireFits | mup1/src/frame.rs:28-38 | Any payload up to 300 bytes, however much of it is escaped, fits the decoder's buffer |
| FrameParser.FeedKeeps | mup1/src/frame.rs:258-380 | After one more byte, log and open attempt still account for all bytes received, within the buffer's capacity |
| FrameParser.TimeOutKeeps | mup1/src/frame.rs:385-398 | Giving up on a stalled attempt loses no byte |
| FrameParser.TakeKeeps | mup1/src/frame.rs:400-413 | In the reference parser, handing out frames or raw content loses no byte |
| FrameLayout.AcceptedIsGood | mup1/src/frame.rs:225-233 | A checksum is accepted exactly when it passes the receiver's check of RFC 1071 or is `0000`, or is the CRC-32 of what was fed |
| FrameLayout.SpanDecides | mup1/src/frame.rs:258-380 | From any state outside an escape or a checksum, a whole span of any payload, however it is escaped, becomes that frame if its checksum is good and raw content if not; what was open before is raw, and nothing is dropped |
| FrameLayout.NoiseIsRaw | mup1/src/frame.rs:368-380 | Outside an attempt, any bytes without a SOF come up as they are |
| FrameLayout.NoTypeIsRaw | mup1/src/frame.rs:315-325 | A SOF with an EOF behind it is raw content |
| FrameLayout.OneEofIsRaw | mup1/src/frame.rs:356-360 | Where a second EOF is due, any other byte makes the attempt raw, or, as a SOF, begins the next one |
| FrameLayout.TrailerVanishes | mup1/src/frame.rs:265-285 | CR right behind a frame is swallowed, and LF right behind that CR; any other byte is taken as if no frame had gone before |
| FrameLayout.NothingElseVanishes | mup1/src/frame.rs:258-380 | As long as there is room no other byte is swallowed and none is dropped |
| FrameLayout.FullDropsOne | mup1/src/frame.rs:203-215 | With 609 bytes held the next one is dropped, and the open attempt becomes raw content |
| FrameLayout.TimedOutIs | mup1/src/frame.rs:385-398 | An attempt given up becomes raw content, and nothing else changes |
| FrameLayout.TakenIs | mup1/src/frame.rs:400-413 | Frames are handed out first, the oldest first, then all settled bytes under the type FF |
| FrameDecoder.Decoder.Inject | mup1/src/frame.rs:258-380 | From any state the decoder can reach, buffer, cursor, checksum, recorded end and queue move as the machine does; it fails on an index exactly when reading back a frame does; the status reports exactly a full buffer and a refused checksum |
| FrameDecoder.Decoder.Tick | mup1/src/frame.rs:385-398 | An attempt is given up exactly when it has not grown since the last tick and the timeout, 500 ms at first, has passed on a clock that may jump back |
| FrameDecoder.Decoder.Get | mup1/src/frame.rs:400-413 | The oldest frame or all settled bytes are handed out, and the recorded payload end stays where it was |
| FrameDecoder.Decoder.ResolveRaw | mup1/src/frame.rs:212-218 | The open attempt with the last byte becomes settled raw content, and nothing else changes |
| FrameDecoder.Decoder.Restart | mup1/src/frame.rs:220-223 | A SOF settles the attempt before it and opens a new one at itself |
| FrameDecoder.Decoder.ChecksumOk | mup1/src/frame.rs:225-233 | Accepted exactly when the bytes are the encoder's for what was fed, or the ignore sentinel |
| FrameDecoder.Decoder.DecodeBody | mup1/src/frame.rs:238-249 | The loop unescapes exactly the recorded span, or runs off the buffer |
| FrameDecoder.Decoder.ResolveSuccess | mup1/src/frame.rs:235-256 | The queued frame is the one read back from the recorded span, and the attempt's bytes leave the buffer |
| FrameMachine.DecodeSpanOfBody | mup1/src/frame.rs:238-249 | Reading the buffer back over a stuffed body reproduces its payload |
| FrameMachine.ReadBackExactly | mup1/src/frame.rs:235-256 | The frame read back is the one its checked span stands for exactly when nothing was drained in front of it |
| FrameMachine.EndBeyondAttemptCrashes | mup1/src/frame.rs:238-249 | A recorded end beyond the whole attempt makes the completing byte fail on an index |
| FrameMachine.StaleDataEndCorrupts | mup1/src/frame.rs:238-249 | With the payload end too large by any number of drained bytes, the payload read differs from the one sent |
| FrameRun.StaleExactly | mup1/src/frame.rs:400-413 | In every run the recorded end is too large exactly when settled bytes were drained in front of the attempt still open |
| FrameRun.CodeConservedExactly | mup1/src/frame.rs:235-256 | For every run of bytes, timeouts and reads: the decoder's frames are the log's, each was on the wire as one checked span and every byte is accounted for, exactly when no frame was completed after a drain in front of it |
| FrameRun.FrameExactly | mup1/src/frame.rs:235-256 | Frame by frame, in every run: completing a frame in front of which nothing was drained never fails, and at any later time the frame queued for it is the one on the wire exactly in that case |
| FrameRun.RawIsConserved | mup1/src/frame.rs:400-413 | Whatever was drained, as long as the decoder has not failed, no byte is lost and one frame is queued for each completed attempt |
| FrameRun.SafeReadsAreAuthentic | mup1/src/frame.rs:400-413 | If no read drains settled bytes while the second EOF or the checksum is awaited, every frame was really on the wire |
| FrameReplay.Replay | mup1/src/client.rs:48-59 | Any sequence of inject, tick and get calls hands out what the run's events say, and fails exactly where they do |
| FrameReplay.DrainedFrame | mup1/src/frame.rs:400-413 | The decoder, given one stray byte, a frame up to its EOF, a read and the checksum, hands out the payload with the EOF behind it |
| FrameReplay.DrainedCrash | mup1/src/frame.rs:400-413 | With six to ninety-nine stray bytes the same calls make the decoder fail |
| FrameHazard.HazardPayload | mup1/src/frame.rs:400-413 | After such a drain a one-byte payload is read with the EOF behind it |
| FrameHazard.DrainCorrupts | mup1/src/frame.rs:400-413 | The same run in the machine: one frame is queued, and its payload is not the one sent |
| FrameHazard.DrainCrashes | mup1/src/frame.rs:400-413 | With six to ninety-nine stray bytes the run ends in a failure |
| FrameRun.EncodedFrameIsQueued | mup1/src/frame.rs:258-380 | From any state of the decoder but inside an escape or a checksum, whatever was drained before, an encoded frame settles the old attempt and is queued exactly, and nothing else |
| FrameRoundTrip.StreamRoundTrip | mup1/src/frame.rs:258-380 | Any list of encoded frames into a fresh decoder gives exactly that list, no raw content and no drops |
| FrameRoundTrip.SubstitutedByteIsRejected | mup1/src/frame.rs:225-233 | For both kinds of checksum, a frame with one logical byte replaced is accepted exactly if its checksum is the ignore sentinel |
| FrameChunking.AnyChunking | mup1/src/client.rs:48-59 | In every run of the decoder that receives encoded frames in pieces of any size, whenever it is read and ticked: no raw content comes up exactly when no tick gives an open frame up, and then no read is unsafe and the frames come out in order |
| FrameChunking.FeedIgnoresTaken | mup1/src/frame.rs:258-380 | What a byte does is independent of how many frames have been taken out |
| Stack.RequestsArrive | coap/src/client.rs:220-222 | Requests sent in frames, received in pieces of any size without a tick giving an open frame up, arrive in order and parse to what was asked |
| Cbor.Canon | cbor/src/encode.rs:15-69 | The tree the encoder writes is well-formed, and denotes the value exactly when all its integers are in range |
| Utf8.RoundTrip | cbor/src/encode.rs:15-50 | Decoding encoded text gives it back |
| Utf8.Canonical | cbor/src/decode.rs:17-41 | Only one byte string decodes to a given text |
| Utf8.CharBits | cbor/src/encode.rs:15-50 | A character is its own byte below 80, or groups of six bits, the first behind C0, E0 or F0 and the others behind 80 |
| Utf8.Concat | cbor/src/encode.rs:15-50 | Characters are written in their order |
| CborParse.ItemSound | cbor/src/decode.rs:17-41 | Whatever is decoded is a well-formed tree whose rendering is exactly the bytes consumed |
| CborParse.ItemComplete | cbor/src/decode.rs:17-41 | Every rendering of a well-formed tree, wherever it stands, is decoded to that tree |
| CborRoundTrip.RoundTripInContext | cbor/src/encode.rs:9-69 | With any bytes before and behind, decoding an encoded value stops at its end, and gives the value exactly when its integers are in range |
| CborRoundTrip.IntegerComesBackAs | cbor/src/encode.rs:15-30 | Any integer comes back reduced to 64 bits, on its side of zero |
| CborRoundTrip.BigIntegerWraps | cbor/src/encode.rs:15-30 | The first integer out of range is read as zero |
| CborRoundTrip.DecodeIsLocal | cbor/src/decode.rs:17-41 | A successful decode consumes at least one byte and depends only on the bytes it consumed |
| CborRoundTrip.TruncatedIsRefused | cbor/src/decode.rs:43-91 | Input cut anywhere inside an item is refused |
| CborRoundTrip.Unambiguous | cbor/src/decode.rs:17-41 | No rendering is a prefix of another's, and no bytes have two parse trees |
| CborRoundTrip.MeaningEncodes | cbor/src/encode.rs:15-50 | Everything decoded from fewer than 2^64 bytes encodes back without loss |
| CborRoundTrip.CanonIsShortest | cbor/src/encode.rs:52-69 | No definite-length encoding of a value is shorter than the encoder's |
| CborRoundTrip.IndefiniteCanBeShorter | cbor/src/encode.rs:52-69 | An indefinite-length array that is one byte shorter than the canonical form |
| CborShortest.BestIsShortest | cbor/src/decode.rs:17-41 | No encoding of a value that decoding accepts, definite or not, is shorter than its shortest form |
| CborShortest.BestSaves | cbor/src/encode.rs:15-69 | The shortest form is never longer than what the encoder writes, and shorter exactly for values with long parts |
| CborShortest.ShorterExactly | cbor/src/encode.rs:15-69 | Some accepted bytes of a value are shorter than the encoder's exactly when it holds an array or map of 256 or more, or a string of 2^32 to 2^32 + 22 bytes |
| CborShortest.LongStringCutsShorter | cbor/src/encode.rs:52-69 | Every string of 2^32 bytes takes a byte less in two chunks |
| CborRoundTrip.SequenceSound | yang/src/codec.rs:1542-1552 | A sequence that is accepted is the concatenation of its items |
| CborRoundTrip.SequenceComplete | yang/src/codec.rs:1542-1552 | Any concatenation of items is accepted as those items |
| CborRoundTrip.NormalizeKeepsMeaning | yang/src/codec.rs:1558-1565 | Normalising keeps every value of every accepted byte string, and is idempotent |
| CborRoundTrip.NormalizeNeverGrows | yang/src/codec.rs:1558-1565 | Without indefinite lengths the normal form is never longer |
| BigEndian.ByteAt | cbor/src/encode.rs:61-67 | Byte i of a k-byte number is the number divided by 256 to the power of k - 1 - i, modulo 256 |
| BigEndian.FewBytes | cbor/src/decode.rs:71-73 | One to four bytes a, b, c, d read as their sum with weights 2^24, 2^16, 2^8 and 1 |
| BigEndian.EightBytes | cbor/src/decode.rs:74 | Eight bytes read as two such groups, the first counting 2^32 |
| CborLayout.LeadIs | cbor/src/encode.rs:52-69 | A head is 32 times the major type plus the argument, or plus 24 to 27 with the argument in 1, 2, 4 or 8 bytes behind it, each byte given as a quotient of the argument |
| CborLayout.EncodedAs | cbor/src/encode.rs:15-50 | What is written for every kind of value: major types 0 to 6 with their arguments, items in order, each key in front of its value, and F4, F5, F6 for false, true and null |
| CborLayout.ArgumentIs | cbor/src/decode.rs:67-78 | Low bits 25 with a, b behind them read as 256 a + b, and 24, 26 and 27 as one, four and eight bytes in the same way; 28 to 31 and missing bytes are refused |
| CborLayout.IntegersRead | cbor/src/decode.rs:17-21 | Initial bytes up to 3F read as n and -1 - n |
| CborLayout.StringsRead | cbor/src/decode.rs:104-122 | Initial bytes 40 to 7F read as byte strings and text, also in chunks up to FF, chunks of the same kind and definite only; text must be UTF-8 |
| CborLayout.ArraysRead | cbor/src/decode.rs:124-145 | Initial bytes 80 to 9F read as that many items, or as all up to FF, in order |
| CborLayout.MapsRead | cbor/src/decode.rs:147-175 | Initial bytes A0 to BF read as that many pairs, or as pairs up to FF, each key the item in front of its value |
| CborLayout.TagsRead | cbor/src/decode.rs:32-36 | Initial bytes C0 to DF read as a tag and the item behind it |
| CborLayout.SimplesRead | cbor/src/decode.rs:177-187 | From E0 on only F4 to F7 begin an item: false, true, null and null |
| CborCodec.ReadArg | cbor/src/decode.rs:67-78 | The argument of each width is read as the grammar says, most significant byte first (`CborLayout.ArgumentIs`), and the cursor ends behind it; reserved widths fail |
| CborCodec.ReadStringBytes | cbor/src/decode.rs:104-122 | Definite and chunked strings give their payload; a chunk of another kind or an open chunk fails |
| CborCodec.ReadArray | cbor/src/decode.rs:124-145 | Both forms of arrays give the values of their items and end where the grammar does |
| CborCodec.ReadMap | cbor/src/decode.rs:147-175 | Both forms of maps give their entries in order and end where the grammar does |
| CborCodec.FromSlice | cbor/src/decode.rs:17-41 | The recursive reader over the shared cursor is the grammar's parser, in result, end position and failure |
| CborCodec.EncodeHead | cbor/src/encode.rs:52-69 | A head is appended in the narrowest width that holds its argument, in the bytes that `CborLayout.LeadIs` gives |
| CborCodec.EncodeValue | cbor/src/encode.rs:15-50 | What is appended is the canonical rendering, and nothing before it changes |
| CborCodec.ToVec | cbor/src/encode.rs:9-13 | The bytes of a value are its canonical rendering |
| CborCodec.CborSeqFromBytes | yang/src/codec.rs:1542-1552 | The loop reads the values of the sequence, or fails where an item does |
| CborCodec.NormalizeCborSeq | yang/src/codec.rs:1558-1565 | The loop computes the normal form |
| CoapMessage.SzxForSize | coap/src/message.rs:81-87 | A size exponent is found exactly for the powers of two from 16 to 1024, and stands for that size |
| CoapMessage.BlockRoundTrip | coap/src/message.rs:94-104 | A block value survives the wire exactly when its number has 28 bits and its exponent three |
| CoapMessage.UintRoundTrip | coap/src/message.rs:131-153 | Unsigned option values come back, from the fewest bytes that can denote them |
| CoapMessage.BlockSizes | coap/src/message.rs:77-79 | Size exponents 0 to 7 mean 16 to 2048 bytes |
| CoapLayout.UintIs | coap/src/message.rs:145-153 | Option values of one to four bytes read most significant byte first, others as zero |
| CoapLayout.UintSpelled | coap/src/message.rs:131-143 | A number is written in that order without a leading zero byte, and zero as nothing |
| CoapLayout.UintSpelledOnce | coap/src/message.rs:131-143 | There is only one such spelling |
| CoapMessage.TailSound | coap/src/message.rs:325-388 | Options and payload that are accepted are exactly a rendering of ordered options |
| CoapMessage.TailComplete | coap/src/message.rs:325-388 | Every rendering of ordered options, in all three forms of deltas and lengths, is read back |
| CoapRequest.UriRoundTrip | coap/src/message.rs:216-250 | The segments of a URI put together from non-empty segments are those segments |
| CoapRequest.RequestOptsOrdered | coap/src/message.rs:221-275 | The options of a request are in ascending order, so no delta is negative |
| CoapRequest.OptionsRoundTrip | coap/src/message.rs:155-214 | The options of a request come back exactly when every segment is shorter than 65536 bytes |
| CoapRequest.RequestRoundTrip | coap/src/message.rs:221-275 | Parsing an encoded request gives its code, message id, Content-Format, blocks and payload |
| CoapLayout.RequestSays | coap/src/message.rs:221-275 | For every request: byte 0 is 41, byte 1 is 1, 2, 3, 4, 5 or 7 by method, then the id and the token; with segments below 64 KiB the options read back are the path segments under 11, the Content-Format under 12, the query segments under 15, exactly the Accept asked for under 17, Block2 without its more flag under 23, Block1 under 27, and no others, and then the payload |
| CoapLayout.SegmentsCut | coap/src/message.rs:216-219 | A delimiter cuts wherever it stands, and empty segments are dropped |
| CoapLayout.UriParts | coap/src/message.rs:231-250 | The path ends at the first question mark, with or without a leading slash; all behind it is the query |
| CoapLayout.OptionRead | coap/src/message.rs:335-386 | An option is read exactly if it is there and its delta, length and number fit 16 bits; nibbles 13 and 14 announce one byte plus 13 and two bytes plus 269 |
| CoapLayout.TailRead | coap/src/message.rs:312-333 | Options go on to the end or to FF, behind which the payload may not be empty |
| CoapLayout.MessageRead | coap/src/message.rs:292-404 | Which messages are accepted, and what is read of one: type, code, id, payload, and Content-Format and blocks from the last option of their number |
| CoapRequest.AcceptedIffRendered | coap/src/message.rs:292-404 | Accepted are exactly the renderings of ordered options with a payload, each to the options it renders |
| CoapRequest.OverflowIsReachable | coap/src/message.rs:381 | A ten-byte message whose option numbers add up beyond 65535 |
| CoapOverflow.OverflowExactly | coap/src/message.rs:335-388 | The 16-bit additions overflow exactly on messages with ordinary options followed by one that asks for more than sixteen bits |
| CoapOverflow.EncodedNeverOverflows | coap/src/message.rs:221-275 | No request with segments below 65536 bytes makes its receiver overflow |
| CoapCodec.Writer.Put | coap/src/message.rs:196-201 | The buffer grows by one option, coded relative to the one before it |
| CoapCodec.Writer.PushOptHeader | coap/src/message.rs:168-194 | Header byte and extensions in all three forms of delta and length |
| CoapCodec.EncodeRequest | coap/src/message.rs:221-275 | The writer's buffer is the wire form of the request, which `CoapLayout.RequestSays` reads back option by option |
| CoapMessage.ExtFound | coap/src/message.rs:345-376 | Whatever stands behind it, an extension written in any of the three forms is read back to its value |
| CoapMessage.ExtSound | coap/src/message.rs:345-376 | A value read is what its nibble and extension bytes stand for, and no others |
| CoapCodec.Parse | coap/src/message.rs:292-404 | The loop over options fills the slots and finds the payload as the option reader does |
| CoapSession.ParsedIsPlausible | coap/src/message.rs:98-104 | Whatever bytes arrive, block fields of parsed messages stay within 28 and 3 bits |
| CoapSession.ChunkInBody | coap/src/client.rs:180-202 | The chunk is the body from the block's offset on, cut to the block size, never out of bounds, and no 32-bit product wraps |
| CoapSession.ContinuesAreBounded | coap/src/client.rs:110-127 | In every run the block number is the count of Continues accepted, and they are fewer than a sixteenth of the body's size, or none |
| CoapSession.ExchangeIsDisciplined | coap/src/client.rs:263-313 | In every run, whatever arrives: uploads inside the body, frames of one epoch identical, at most one plus five repeats |
| CoapSession.FramesOfOneIdAgree | coap/src/client.rs:287-311 | With fewer than 65536 message ids, frames under one id are identical |
| CoapSession.RoundsOver | coap/src/client.rs:262-313 | Once over, an exchange stays as it is, and message ids never move back |
| CoapOutcome.RoundEnds | coap/src/client.rs:287-313 | A round ends the exchange with the last fault there was (a reset, or a Continue beyond the body); else with a response if a message completed it; else with a timeout if nothing moved it on, the deadline has passed and five repeats are out; and exactly then a frame goes out when something moved it on or a repeat is due |
| CoapOutcome.MovesMean | coap/src/client.rs:91-130 | An answer that announces more asks for the block behind it, in its size; a Continue moves to the next block of the body, in the size asked for; both to the next id, and nothing else does |
| CoapOutcome.FrameShows | coap/src/client.rs:171-222 | A frame asks for the response block reached and carries the body block reached, numbered and marked, or no Block1 if the body is a single block |
| CoapOutcome.EveryFrameAsks | coap/src/client.rs:171-222 | In every run every frame has the method, token, URI and formats of the request, and ids count on from the first |
| CoapOutcome.TimesOutAfterSix | coap/src/client.rs:300-305 | Whatever arrived before, a timeout comes only after six frames under the last id |
| CoapOutcome.SilentDevice | coap/src/client.rs:299-309 | A device that never answers is sent one frame and five identical repeats; the sixth deadline is the timeout |
| CoapOutcome.RunShows | coap/src/client.rs:91-130 | In every run the code and the Content-Format are those of the last answer, the payload is that of all answers, and the error is the fault that ended it |
| CoapTransfer.AnswerAdvances | coap/src/client.rs:91-130 | A genuine answer moves the transfer on by one block or completes it; it never fails it |
| CoapTransfer.AfterCompletion | coap/src/client.rs:263-286 | Behind the final reply in one batch the response stays right exactly when no further copy follows or it is empty |
| CoapTransfer.RoundAdvances | coap/src/client.rs:262-313 | A round of genuine replies keeps the response a prefix; when it finishes, the response is right exactly with one copy of the final reply |
| CoapTransfer.ExactlyOnceTransfer | coap/src/client.rs:91-130 | Over every genuine run with losses, repeats and reorderings: always a prefix, no block skipped, never a failure, and in the end the server's response exactly when the last batch holds one final reply |
| CoapTransfer.DuplicateInOneBatch | coap/src/client.rs:263-286 | Two copies of the final reply in one batch deliver the response twice |
| CoapTransfer.BlocksArePrefix | coap/src/client.rs:180-202 | Blocks concatenate to a prefix of the body, and to all of it from the one that completes it |
| CoapTransfer.UploadIsFaithful | coap/src/client.rs:180-202 | If each Continue echoes the size, every frame of the n-th id carries block n or nothing, and only the completing block is marked last |
| CoapTransfer.UploadIsCarried | coap/src/client.rs:180-202 | Under the same condition every frame carries exactly its block up to an epoch that is never the first, and not reached unless the response is being fetched in blocks; from there on none carries any of the body |
| CoapTransfer.FrameIsReadAsSent | coap/src/client.rs:171-222 | The device parses every frame of a transfer as the exchange meant it |
| CoapClient.Session.ProcessResponse | coap/src/client.rs:91-130 | The session's fields move as the abstract state does |
| CoapClient.Session.Receive | coap/src/client.rs:266-284 | Stale ids and other types are ignored, a reset fails the exchange, an acknowledgement is processed |
| CoapClient.Client.SetBlockSize | coap/src/client.rs:163-169 | Accepted exactly for powers of two from 16 to 1024; otherwise nothing changes |
| CoapClient.Client.SendFrame | coap/src/client.rs:171-222 | What goes out is the wire form of the frame for the session's state |
| CoapClient.Client.RunRound | coap/src/client.rs:262-313 | One turn of the loop is one round of the transition system, in state, frames and outcome |
| CoapClient.Client.IssueRequest | coap/src/client.rs:230-323 | The loop runs the exchange round by round, sends exactly its frames, and its result reports the last answer, the fault or the six frames in vain, told by what was delivered |
| CoapClient.RunReports | coap/src/client.rs:315-324 | Class and detail of a response make up the code of the last answer to the id then current, with its Content-Format; an error is the reset or spurious Continue that ended the run; a timeout follows six frames |
| CoapClient.SuccessIsClassTwo | coap/src/client.rs:40-42 | A response is a success exactly when that code is 64 to 95 |
| YangBits.PackHas | yang/src/codec.rs:606-650 | The packed bytes have exactly the bits of the positions |
| YangBits.SpansAlternate | yang/src/codec.rs:652-673 | Positive gaps and non-empty zero-free spans strictly alternate |
| YangBits.SpansExpand | yang/src/codec.rs:652-673 | The span list expands to the packed bytes |
| YangBits.BitsBytesToSpans | yang/src/codec.rs:652-673 | The loop computes the span list |
| YangBits.SetBitsExact | yang/src/codec.rs:675-722 | The positions read from bytes are exactly their set bits |
| YangBits.PositionsRoundTrip | yang/src/codec.rs:606-722 | The positions of any list of names come back from the bits form, ascending |
| YangBits.BitsRoundTrip | yang/src/codec.rs:606-722 | With distinct names and positions, decoding gives the distinct names in ascending position order |
| YangTextLayout.BitCounts | yang/src/codec.rs:634-638 | Bit k of a byte counts 2^k |
| YangTextLayout.PositionIs | yang/src/codec.rs:634-638 | Position p is bit p % 8 of byte p / 8 |
| YangTextLayout.ItemsExpand | yang/src/codec.rs:652-673 | An integer between spans is a count of zero bytes |
| YangTextLayout.ItemsRead | yang/src/codec.rs:690-711 | A gap moves the byte offset on by its value and a span by its length; bits count from eight times the offset |
| YangBitsCodec.EncodeBits | yang/src/codec.rs:606-650 | The loops compute the bits form: one span alone as a byte string, anything else as an array; an unknown name fails |
| YangBitsCodec.DecodeBits | yang/src/codec.rs:675-722 | The loop over spans and gaps finds the names of the set bits, offsets and positions wrapping at 32 bits as where overflow is not checked |
| YangBitsOverflow.OverflowExactly | yang/src/codec.rs:690-711 | The 32-bit sums and products overflow exactly when spans and gaps add up to 2^32 bytes or a bit is set beyond 32-bit positions |
| YangBitsOverflow.WithoutOverflow | yang/src/codec.rs:690-711 | Without overflow the positions read are the true ones |
| YangBitsOverflow.EncodedNeverOverflows | yang/src/codec.rs:606-673 | What the encoder writes for any names of a type is read without overflow |
| YangBitsOverflow.OverflowIsReachable | yang/src/codec.rs:690-711 | A gap and one byte that reach position 2^32, read as position 0 where it wraps |
| YangText.PrintParse | yang/src/codec.rs:1035-1066 | A printed number in range parses back to itself |
| YangText.Base64RoundTrip | yang/src/codec.rs:1795-1855 | Decoding encoded base64 gives the data back |
| YangText.Base64IgnoresSkipped | yang/src/codec.rs:1818-1855 | Padding and white space anywhere make no difference to what is decoded |
| YangText.EncodeBase64 | yang/src/codec.rs:1795-1816 | The loop over chunks computes the base64 text |
| YangText.DecodeBase64 | yang/src/codec.rs:1818-1855 | The loop decodes four sextets at a time, and fails on any other character |
| YangText.WordsOfJoin | yang/src/codec.rs:606-650 | Names joined by single blanks split into the same names |
| YangTextLayout.NumberDigits | yang/src/codec.rs:394-401 | A number ends in the digit of its remainder by ten, behind the digits of its tenth part |
| YangTextLayout.DigitsCount | yang/src/codec.rs:1040-1055 | Each further digit counts one and those before it ten times as much |
| YangTextLayout.DigitsOnly | yang/src/codec.rs:1040-1055 | Only 0 to 9 are digits |
| YangTextLayout.NumberRead | yang/src/codec.rs:273-285 | Digits with a plus, or a minus where negative numbers are allowed, are accepted exactly within the bounds |
| YangTextLayout.NoNumber | yang/src/codec.rs:273-285 | Anything else is no number |
| YangTextLayout.SymbolIs | yang/src/codec.rs:1793-1828 | The base64 alphabet, both ways |
| YangTextLayout.GroupWritten | yang/src/codec.rs:1795-1816 | Which bits of three, two and one bytes each symbol holds, and where the padding stands |
| YangTextLayout.GroupsWritten | yang/src/codec.rs:1795-1816 | Bytes are cut into threes from the front |
| YangTextLayout.SymbolOnly | yang/src/codec.rs:1819-1828 | No other character stands for six bits |
| YangTextLayout.SkippedOnly | yang/src/codec.rs:1829-1832 | Padding, blank, tab, line feed, form feed and return are skipped, wherever they stand, and nothing else is |
| YangTextLayout.GroupsRead | yang/src/codec.rs:1833-1855 | What is left is cut into fours from the front, and refused exactly if it holds anything but symbols |
| YangTextLayout.GroupRead | yang/src/codec.rs:1818-1855 | Four, three and two symbols make three, two and one bytes, and spare bits are dropped |
| YangCanon.NumberExactly | yang/src/codec.rs:1035-1066 | Printing what a number's text parses to gives the text back exactly when it has no superfluous sign or zero |
| YangCanon.Base64Exactly | yang/src/codec.rs:1795-1855 | Encoding what a base64 text decodes to gives the text back exactly when it is padded to fours, with no other character and no spare bits |
| YangCanon.BlanksExactly | yang/src/codec.rs:606-650 | Joining the words of a text gives it back exactly when single blanks separate them |
| YangLeaf.LeafExactly | yang/src/codec.rs:250-440 | With distinct enumeration values, bit positions and identity SIDs: of the values that a leaf type accepts, exactly those in canonical spelling come back |
| YangLeaf.WireBack | yang/src/codec.rs:390-440 | For types whose wire form is one to one, what a device sends within the restrictions is decoded to a canonical value that encodes to what it sent |
| YangLeaf.OrderedNamesRoundTrip | yang/src/codec.rs:606-722 | Names in ascending position order come back unchanged |
| YangLeaf.IdentityRoundTrip | yang/src/codec.rs:724-770 | With distinct SIDs a qualified identity name comes back |
| YangLeaf.EnumInverse | yang/src/codec.rs:566-604 | With distinct values an enumeration's name is found again by its value |
| YangLeaf.LeafInRange | yang/src/codec.rs:250-352 | Leaf values are written as integers that CBOR can carry |
| YangLeaf.CodecIsFaithful | yang/src/codec.rs:250-440 | The leaf encoding meets what the tree theorems ask of one |
| YangLeafLayout.SmallIntegerWritten | yang/src/codec.rs:266-272 | Integers of up to 32 bits are written as they are, if some range of the type holds them |
| YangLeafLayout.LargeIntegerWritten | yang/src/codec.rs:273-285 | Those of 64 bits are accepted as text, in exactly the bounds of their type |
| YangLeafLayout.PlainWritten | yang/src/codec.rs:286-323 | Booleans, text and binary data within the length allowed, and [null] for an empty leaf |
| YangLeafLayout.NamedWritten | yang/src/codec.rs:566-582 | An enumeration is written as the value of its name |
| YangLeafLayout.IdentityWritten | yang/src/codec.rs:724-750 | An identity is written as the SID of its name in the module named, or in the type's own when there is none |
| YangLeafLayout.PlainRead | yang/src/codec.rs:384-419 | What each kind of CBOR value is read as |
| YangLeafLayout.NamedRead | yang/src/codec.rs:584-604 | An enumeration value without a name stays a number; an identity is shown with its module |
| YangLeafLayout.EnumByName | yang/src/codec.rs:572-577 | The first value of the name is meant, and none only if there is none |
| YangLeafLayout.EnumByValue | yang/src/codec.rs:594-602 | The first name of the value is shown |
| YangLeafLayout.IdentityByName | yang/src/codec.rs:733-738 | An identity is found exactly if the type's values hold one of that module and name |
| YangLeafLayout.BitByName | yang/src/codec.rs:620-627 | A bit name means a bit of that name |
| YangLeafLayout.BitAtPosition | yang/src/codec.rs:701-703 | A bit read is shown under its name, and left out if the type does not define it |
| YangBody.ContinueAgrees | yang/src/codec.rs:1280-1454 | Whatever strict encoding accepts, the continue flag writes identically, through the whole recursion |
| YangBody.ContinueSucceeds | yang/src/codec.rs:148-157 | With the flag, containers, lists and typed leafs always encode |
| YangBodyLayout.BodyWritten | yang/src/codec.rs:1228-1314 | A body's keys are the children's SIDs less the node's own SID; less the rpc's or action's on a side of one; and as they are at the top of a tree: one entry for each field that names a child with a SID, in the order of the fields |
| YangBodyLayout.KeyNumber | yang/src/codec.rs:1314 | A difference that fits 64 bits is written as it is |
| YangBodyLayout.StrictExactly | yang/src/codec.rs:1280-1345 | Without the continue flag exactly those bodies are accepted whose fields all name children that accept them and in which no mandatory child or list key is missing, state data in a put or ipatch aside |
| YangBodyLayout.BodyRead | yang/src/codec.rs:1347-1371 | Exactly those maps are accepted whose keys, counted from the same SID, are SIDs of the schema with values that their nodes accept; every name comes out once, where it came first, with the value that came last |
| YangBodyLayout.GathersOnce | yang/src/codec.rs:1347-1371 | That leaves one result, and distinct names as they were |
| YangNodeLayout.SeenExactly | yang/src/schema.rs:485-490 | The children of a body are exactly the nodes that hang below with nothing but choices and cases between, and are neither |
| YangNodeLayout.NameMeans | yang/src/codec.rs:1300-1309 | A name means the first of them that is called so, and nothing only if none is |
| YangNodeLayout.NodeWritten | yang/src/codec.rs:1384-1454 | Leaf-lists and lists keep the order of their elements and are accepted exactly if each is; a single entry stands for a list only in a fetch, ipatch or post |
| YangNodeLayout.RpcWritten | yang/src/codec.rs:1429-1451 | One field called input or output is that side's body; any other object is the body of the input |
| YangNodeLayout.NodeContinued | yang/src/codec.rs:1391-1428 | With the continue flag a refused leaf is written without its type, a refused body or list as an empty one |
| YangNodeLayout.NodeRead | yang/src/codec.rs:1456-1532 | The same when decoding; the first key of an rpc's map tells the side, and input is asked first |
| YangNodeLayout.LocalNameIs | yang/src/schema.rs:364-369 | The local name is what stands behind the last colon |
| YangRoundTrip.TreeContinues | yang/src/codec.rs:1702-1751 | The flag never refuses a whole tree and changes nothing about an accepted one |
| YangRoundTrip.NodeRoundTrip | yang/src/codec.rs:1384-1532 | Decoding what strict encoding wrote for a canonical value of any node kind gives it back, key order included |
| YangRoundTrip.BodyRoundTrip | yang/src/codec.rs:1280-1371 | The same for one body of delta-SID keys, through choices and cases |
| YangRoundTrip.RpcRoundTrip | yang/src/codec.rs:1410-1532 | A non-empty input or output comes back from its flat map on the same side |
| YangRoundTrip.FirstKeyTellsSide | yang/src/codec.rs:1484-1516 | No other side of the rpc has a data child with the SID of the first key |
| YangRoundTrip.NodeInRange | yang/src/codec.rs:1280-1454 | Encoded nodes hold only integers that CBOR can carry |
| YangRoundTrip.TreeRoundTrip | yang/src/codec.rs:1731-1787 | A canonical tree survives the way to bytes and back, key order included |
| YangBuilt.BuiltIsIndexed | yang/src/schema.rs:2526-2543 | A schema the arena built with distinct SIDs is sound, and its index finds every node of the data tree and of the rc:yang-data templates |
| YangBuilt.BuiltTreeRoundTrip | yang/src/codec.rs:1731-1787 | On such a schema, if its live rpcs and actions carry SIDs, with the modelled leaf types, every canonical tree comes back from its bytes |
| YangBuilt.SchemaOf | yang/src/schema.rs:2526-2558 | A finished arena is handed over with an exact SID index |
| YangBodyCodec.EncodeNodeValue | yang/src/codec.rs:1384-1454 | Dispatch on the node kind computes the encoding function |
| YangBodyCodec.EncodeBody | yang/src/codec.rs:1280-1345 | The loop over fields, with skipped lookups and required children, computes the body's encoding, of which `YangBodyLayout` gives keys and conditions |
| YangBodyCodec.DecodeBody | yang/src/codec.rs:1347-1371 | The loop over entries computes the body's decoding, with keys counted as `YangBodyLayout.BodyRead` says; a repeated key keeps its first place and last value |
| YangBodyCodec.DecodeNodeValue | yang/src/codec.rs:1456-1532 | Dispatch on the node kind computes the decoding function |
| YangIidRoundTrip.PathSplits | yang/src/codec.rs:978-995 | A printed path splits into its steps, slashes in key values notwithstanding |
| YangIidRoundTrip.SelectorsParse | yang/src/codec.rs:997-1027 | Printed selectors parse back to their names and values |
| YangIidRoundTrip.StepsResolve | yang/src/codec.rs:1071-1142 | Resolving a printed path finds its last node and the key values of all its lists, in order |
| YangIidRoundTrip.PathPrints | yang/src/codec.rs:1176-1212 | Printing hands each list on the chain its own keys back |
| YangIidRoundTrip.PathRoundTrip | yang/src/codec.rs:1071-1212 | A path with canonically spelled keys decodes to the same node and to its raw path; unchanged exactly when no choice or case is on the chain |
| YangIidRoundTrip.KeyExactly | yang/src/codec.rs:1035-1066 | Of the key texts that a type accepts, exactly those in canonical spelling are printed back |
| YangIidLayout.FormIs | yang/src/codec.rs:1133-1141 | A SID alone without keys, else an array of the SID and the keys |
| YangIidLayout.FormRead | yang/src/codec.rs:1144-1162 | And read the same way |
| YangIidLayout.KeysOfPath | yang/src/codec.rs:1081-1128 | The keys of the outermost list come first |
| YangIidLayout.KeysOfList | yang/src/codec.rs:1092-1110 | The keys of one list come in the order of its key statement |
| YangIidLayout.PickedInKeyOrder | yang/src/codec.rs:1092-1110 | In whatever order selectors are given |
| YangIidLayout.GivenIs | yang/src/codec.rs:1098 | The first selector of a name counts |
| YangIidLayout.SegmentsInTurn | yang/src/codec.rs:1081-1128 | Each segment is looked up below the one before; the last SID and all keys are kept |
| YangIidLayout.SegmentIs | yang/src/codec.rs:1081-1122 | A segment is refused exactly if its text, its name, a selector's name or a key's value is, or the child has no SID |
| YangIidLayout.SlashCuts | yang/src/codec.rs:978-995 | Outside brackets a slash cuts, and empty pieces are dropped |
| YangIidLayout.BracketsKeep | yang/src/codec.rs:978-995 | Inside brackets nothing cuts |
| YangIidLayout.SegmentText | yang/src/codec.rs:997-1003 | A name ends at the first bracket |
| YangIidLayout.SelectorText | yang/src/codec.rs:1004-1024 | A selector is a key, an equals sign and a value up to the bracket; what stands between selectors is skipped |
| YangIidLayout.QuotesComeOff | yang/src/codec.rs:1018-1022 | One pair of quotes of either kind is taken off |
| YangIidLayout.BlanksComeOff | yang/src/codec.rs:1017 | Blanks around a value are not part of it |
| YangIidLayout.PrintedStep | yang/src/codec.rs:1186-1208 | A path is printed from its first node on, each as a slash, its name and its keys |
| YangIidLayout.PrintedKey | yang/src/codec.rs:1207 | A key is printed as [name='value'] under its local name |
| YangIidLayout.KeyRead | yang/src/codec.rs:1035-1066 | A key's text is read by its type: short integers and booleans as such, all else as text |
| YangIidLayout.KeyPrinted | yang/src/codec.rs:1203-1207 | Text is printed as it is, other values as JSON |
| YangIidCodec.SplitOutsideBrackets | yang/src/codec.rs:978-995 | The scan with a depth counter cuts exactly at slashes outside brackets |
| YangIidCodec.ParseIidSegment | yang/src/codec.rs:997-1027 | The loop over brackets computes name and selectors, and fails on a malformed one |
| YangIidCodec.ResolvePath | yang/src/codec.rs:1071-1142 | The walk down the schema computes the node and the SID form |
| YangIidCodec.NodePathString | yang/src/codec.rs:1176-1212 | The walk up the parents and down again prints the path, consuming keys from the front |
| YangIidCodec.DecodePath | yang/src/codec.rs:1144-1174 | A SID form gives the indexed node and its printed path |
| YangSequence.WrittenAsNull | yang/src/codec.rs:1600-1650 | A value is written as null exactly when there is none or the node is a leaf of type empty |
| YangSequence.PairRoundTrip | yang/src/codec.rs:1600-1700 | An entry comes back unchanged exactly when its path passes no choice or case and it has no value or is not for a leaf of type empty |
| YangWitness.SampleIsOne | yang/src/codec.rs:1669-1700 | The concrete schema, with names of its nodes, to which the next two apply |
| YangWitness.EmptyLeafComesBackAsNull | yang/src/codec.rs:1669-1700 | At a concrete schema, the entry of a leaf of type empty comes back without its value |
| YangWitness.ChoicePathComesBackLonger | yang/src/codec.rs:1176-1212 | At the same schema, the path of a leaf below a choice comes back with choice and case |
| YangSequence.PathItemRoundTrip | yang/src/codec.rs:1600-1700 | A fetch entry of a path alone comes back unchanged exactly when it passes no choice or case |
| YangSequence.SequenceRoundTrip | yang/src/codec.rs:1600-1700 | Canonical entries survive the way to a CBOR sequence and back, each of them and in order |
| YangSequence.SequenceContinueAgrees | yang/src/codec.rs:1600-1650 | Entries accepted without the continue flag are written identically with it |
| YangMessageLayout.EntryWritten | yang/src/codec.rs:1600-1650 | An entry is a map of one pair, identifier and value, and null stands for none; in a fetch, ipatch or post only |
| YangMessageLayout.PathWritten | yang/src/codec.rs:1600-1650 | A fetch may ask for a path alone; nothing else is an entry |
| YangMessageLayout.EntryRead | yang/src/codec.rs:1669-1700 | And read the same way |
| YangMessageLayout.ItemsWritten | yang/src/codec.rs:1600-1650 | Entries are accepted exactly if each is, and keep their order |
| YangMessageLayout.SequenceWritten | yang/src/codec.rs:1600-1650 | They are written one behind the other |
| YangMessageLayout.ItemsRead | yang/src/codec.rs:1669-1700 | Items are read exactly if each can be, and keep their order |
| YangMessageLayout.TreeWritten | yang/src/codec.rs:1702-1751 | A tree is one object; with the continue flag anything else is written as an empty one |
| YangMessageLayout.TreeRead | yang/src/codec.rs:1753-1787 | No bytes are an empty tree, and else the first item counts |
| YangMessageLayout.GenericWritten | yang/src/codec.rs:353-380 | What a refused value is written as: for what it is, fractions as text, objects with text keys in order |
| YangSequence.EncodeSequence | yang/src/codec.rs:1600-1650 | The loop computes the bytes of the sequence, or fails with the first entry that does |
| YangSequence.DecodeSequence | yang/src/codec.rs:1669-1700 | The loop computes the entries, or fails with the first item that does |
| YangSchema.DataChildBelongs | yang/src/schema.rs:485-490 | A child seen through choices and cases has the node as its data parent, and a larger id |
| YangSchema.SpliceChildren | yang/src/schema.rs:665-675 | The recursion over a growing vector computes the spliced list |
| YangArena.ConfigLessBelow | yang/src/schema.rs:1046-1052 | Below a node with no config no node has one, at any depth |
| YangArena.WithoutIs | yang/src/schema.rs:2106-2117 | What is left of a child list keeps its order |
| YangArena.RemovedLive | yang/src/schema.rs:2106-2117 | Removing a node ends the life of exactly its subtree |
| YangArena.CreatedLive | yang/src/schema.rs:1036-1087 | Creating a node changes no other node's liveness; the new one is live when attached to a live place |
| YangArena.LiveIsUnderRoot | yang/src/schema.rs:2526-2534 | The walk over child lists from the module roots reaches exactly the live nodes |
| YangArena.Builder.AddModule | yang/src/schema.rs:1158 | A module enters without nodes; the invariant holds |
| YangArena.Builder.NewNode | yang/src/schema.rs:1036-1087 | The forest grows by one blank node, last in its parent's or module's list and with no other change: with no config for an rpc, action or notification, else its parent's, true at a root; the invariant holds |
| YangArena.Builder.OverrideConfig | yang/src/schema.rs:1447-1451 | Config is set only where it applies; links stay |
| YangArena.Builder.RemoveNode | yang/src/schema.rs:2106-2117 | Exactly the target's subtree dies, by taking the target out of its parent's or module's list; the invariant holds |
| YangArena.Builder.PropagateConfigFalse | yang/src/schema.rs:2119-2128 | Exactly the nodes that inherit from the node become config false, and nothing else of any node changes |
| YangArena.Builder.ReplaceConfig | yang/src/schema.rs:2056-2065 | Afterwards every live node below that has a config agrees with config false; nothing outside the subtree changes |
| YangArena.Builder.SetSid | yang/src/schema.rs:2233 | Only the target's SID changes |
| YangArena.Builder.SetType | yang/src/schema.rs:1479-1482 | Only the target's type changes; links and config stay |
| YangArena.Builder.SetMandatory | yang/src/schema.rs:1452-1454 | Only the target's mandatory flag changes |
| YangArena.Builder.AddKey | yang/src/schema.rs:1540-1549 | The direct child with the key's local name joins the list's keys; without one nothing changes |
| YangArena.Builder.AddTemplate | yang/src/schema.rs:1366-1370 | The root of an rc:yang-data template is kept beside the module lists; the invariant holds |
| YangArena.Builder.IndexSids | yang/src/schema.rs:2602-2609 | The recursion enters exactly the SIDs of the subtree |
| YangArena.Builder.IndexAll | yang/src/schema.rs:2526-2543 | With distinct SIDs the index maps s to n exactly when n is live or in an rc:yang-data template and carries s |
| YangIdentity.Closure | yang/src/schema.rs:295-302 | A worklist over any graph, cyclic or not, computes exactly what its seeds reach |
| YangIdentity.TransitiveDerivedExcludingSelf | yang/src/schema.rs:291-303 | Exactly the identities derived by one or more edges |
| YangIdentity.DerivedFromAll | yang/src/schema.rs:305-319 | Exactly the identities derived from every base; none without bases |
| YangIdentity.ReachableIdentities | yang/src/schema.rs:2425-2435 | The least set that holds the seeds and is closed under base |
| YangIdentity.DerivesFrom | yang/src/yang_catalog.rs:719-737 | The upward search answers whether the base is reached by one or more edges |
| YangIdentity.DirectionsAgree | yang/src/yang_catalog.rs:719-737 | Upward search in the catalog and downward closure in the builder agree |
| YangDerivation.DerivedUnfolds | yang/src/schema.rs:291-303 | Derived from a base means derived directly, or from an identity that is |
| YangDerivation.DerivedIsLeast | yang/src/schema.rs:291-303 | And nothing that these edges do not demand |
| YangDerivation.HasBaseUnfolds | yang/src/yang_catalog.rs:719-737 | In the catalog: lists the base, or lists a name that has it |
| YangDerivation.NameOrder | yang/src/yang_catalog.rs:677-717 | Names are sorted character by character, the shorter first |
| YangIdentity.AcceptedIdentities | yang/src/schema.rs:2253-2277 | An accept-list is accepted exactly when each entry names an identity derived from every base |
| YangIdentity.AssignIdentityValues | yang/src/schema.rs:2340-2364 | The value set holds only identities derived from every base, and is exactly what accept-lists and derivation allow |
| YangIdentityArena.EdgeExact | yang/src/schema.rs:1136-1140 | One base statement makes everything at or below the identity derived from everything at or above the base, and nothing else |
| YangIdentityArena.WithEdgeLinked | yang/src/schema.rs:1138-1139 | Entering an edge at both ends keeps the two directions inverse |
| YangIdentityArena.QualifiedNamesDistinct | yang/src/schema.rs:1089-1105 | Registered identities have distinct qualified names |
| YangIdentityArena.Registry.GetIdentity | yang/src/schema.rs:1089-1105 | An identity is created on first mention and found ever after |
| YangIdentityArena.Registry.AddBase | yang/src/schema.rs:1132-1141 | A base statement, also a forward or self reference, enters its edge in both directions |
| YangIdentityCheck.AssignValues | yang/src/schema.rs:2340-2369 | In every member of every union the assigned values derive from every base |
| YangIdentityCheck.CheckIdentityrefValues | yang/src/yang_catalog.rs:677-717 | No complaint exactly when all values are present, sorted, known and derived from every base |
| YangIdentityCheck.AssignedValuesPass | yang/src/yang_catalog.rs:677-737 | The value sets the builder assigns always pass the catalog's own check |
| YangIdentityCheck.KeptIdentities | yang/src/schema.rs:2410-2438 | The catalog keeps every identity in use, closed under base |

## Left out

- Serial and TCP transport, telnet negotiation, the I/O of `Mup1Client::poll`, the command line and its files: input bytes, batches of messages and clock readings are parameters instead.
- I/O errors inside the CoAP loop; a run of polls that ends before the exchange does is reported as still waiting.
- Error texts: failures are `None` or an error tag.
- Frame.Encode: for the Internet checksum the source keeps a 16-bit position, so payloads are limited to those that fit it.
- CoapSession.ChunkInBody: request bodies above 4 GiB, where the 32-bit product of block number and size wraps, are not modelled beyond bounds.
- CoapTransfer.UploadIsFaithful: when a Continue asks for another block size the source does not rescale the block number; there only bounds and progress are proved.
- CoapTransfer.ExactlyOnceTransfer: assumes fewer than 65536 message ids in one exchange, since a reused id cannot be told from a stale one.
- CborRoundTrip.NormalizeKeepsMeaning: byte strings are below 2^64 bytes, as any the source can hold.
- CborCodec.ToVec: strings, arrays and maps are shorter than 2^64, as any the source can hold.
- Decimal64, instance-identifier, leafref and union leaf types and string patterns: not in YangLeaf; the body theorems hold for any faithful leaf encoding.
- YangLeaf.LeafExactly: string patterns and the types decimal64, instance-identifier, leafref and union are not modelled; enumeration values, bit names and positions, and identity SIDs are distinct, and bit names are words, as YANG demands of a module.
- YangLeaf.WireBack: not for enumerations, bits and identities, which have several wire forms for one value or none for some.
- YangRoundTrip.TreeRoundTrip: a non-empty rpc side, because an empty one leaves no key from which the side could be told.
- YangBitsOverflow.OverflowExactly: byte strings are below 2^32 bytes; their own length is also cast to 32 bits.
- YangSequence.EncodeSequence: what each entry is written as is shorter than 2^64, as anything the source can hold.
- CborShortest.ShorterExactly: values whose integers are in range, as no bytes decode to any other.
- YangIidRoundTrip.PathRoundTrip: key values and names without square brackets, which the path syntax cannot quote.
- YangBody: anydata, anyxml and notification nodes are refused as in the source; key order of JSON objects is insertion order.
- YangArena: the nameless scratch node that an rc:yang-data statement leaves behind lists a child that no longer points back to it; nothing refers to that node, and the arena's forest is without it.
- YangArena.Builder: augment, grouping, typedef and leafref resolution and the YANG parser; the arena sees only their calls.
- YangArena.Builder.IndexAll: modules are visited in no particular order, as the source's hash map gives them.
- YangIdentityCheck.AssignValues: returns the type with its values instead of updating it in place.
- YangIdentityCheck.CheckIdentityrefValues: complaints carry a tag and a name, not their texts; the other checks of the catalog are not modelled.
- JSON Schema and catalog generation other than identityref values.
