# Verified models of the vendored codec, address and client code

This project models the algorithmic core of the OpenVPN 3 Go binding and of the C and C++ it ships, and proves what that
core is for:

* **LZ4 blocks.** A reference decoder grows history one byte at a time. The fast decoder, with its over-copies, overlap tables
  and two-stage shortcut, stays inside its buffers and computes what the reference computes. The greedy compressor writes
  blocks that decode to their input, within the promised bound, also when one table is reused for block after block.
* **LZ4 frames.** A machine fed one byte at a time defines what a frame means, and reads back what a writer of the format puts
  down. The resumable fifteen-stage decoder keeps step with it however input and output space are cut up, with the last 64 KB
  of history kept across the caller's buffers and its own.
* **HC match index and xxHash.** The hash chain visits exactly what a naive backward scan finds, and the search over it finds
  the longest match there is. Hashing in pieces equals hashing at once, and both hashes have their published values.
* **Addresses.** 128-bit arithmetic on two words is arithmetic modulo 2^128. Netmask recognition is exact. The address-space
  splitter yields the coarsest safe partition. The IPv6 printer is inverted by a reference parser. The address pool never hands
  out an address that is in use.
* **Client lifecycle.** In every interleaving of Connect, Stop and TransportStats the C client is released at most once, and never
  while statistics are being read from it.

Pointers are indices into one memory, integers are unbounded with wrap-around written out, 64-bit little-endian code paths are
taken, and hash functions of the compressors are arbitrary functions into the table range. Allocation succeeds. The mutex-protected
sections of the Go client are single steps of a state machine.

`dafny verify dfyconfig.toml` checks the project.

## Results that differ from what one might expect

* `acceleration << 6` is computed in 32 bits. When the acceleration is a multiple of 2^26 the search step vanishes, a position is matched
  with itself, and every input without repeated four-byte groups decodes to something else (`CompressBlock`, `VanishingStep`). The
  compressor is proved correct for every other acceleration.
* Compressing and decompressing an empty packet fails, because a decoded size of zero counts as an error; `PacketCompression.RoundTrip`
  states exactly when the round trip succeeds.
* Whether a block is accepted can depend on where its history lies. On its shortcut path the decoder does not enforce the
  end-of-block restrictions, and the shortcut is open only to matches directly before the output. `Accepts` reads acceptance off the
  fields of a block; `DecompressGeneric` returns a size if and only if it holds. With history moved away from the output exactly the
  blocks with a late match are lost (`PlacementDecides`), and `PlacementMatters` makes both calls on such a block. Blocks that keep
  the restrictions are accepted everywhere (`WellEndedAccepted`).
* In frames this matters for linked blocks of 64 KB only. There the room that a call offers decides: a block with a late match is
  taken if it can be decoded behind its history in the caller's buffer, and refused in the temporary one (`RoomDecides`,
  `RoomMatters`). For all other frames no way of cutting up input and output changes the verdict (`PlainStays`, `SameVerdict`).
* The comment on `release_addr` says that releasing a free address does nothing; the code appends it to the free list once more.
  That does no harm: the flag in the map decides.
* IPv6 routes with a scope id are never contained in the scope-less root, so the splitter does not cut along them
  (`Splitter.OtherScopesIgnored`). A leaf reaches across such a route exactly if the route's block is a proper part of it
  (`Splitter.LeavesAreSafe`), and `Splitter.ScopedRouteStraddled` shows it for each of them.
* A target of LZ4HC_Insert that steps back spoils the match index: after that call a head points beyond the text entered so far. The
  index is right after every call of a series if and only if the targets never decrease (`HashChain.AgreesThroughout`). A run that
  returns to the index it left has entered positions twice: then the heads are right again, and the links exactly under the condition
  that `HashChain.BackAndForth` states. After going back by one position they never are: it becomes its own predecessor
  (`HashChain.EnterAgain`).
* A size of 2^31 or more in a packet turns negative on its way to the decoder, which refuses every block with a negative capacity
  (`NothingFits`); so such packets are refused even without a limit.
* A Stop that looks at the client just before Connect starts releases it while Connect is in its C call
  (`ClientLifecycle.ReleaseUnderConnect`). Connect has the client to itself exactly when nobody is on the way to the release as it
  starts (`ClientLifecycle.ConnectUsesLiveClient`, `ClientLifecycle.StartUnderRelease`).

## Model

| member | source | states |
|---|---|---|
| BlockFormat.CopyMatchSpec | deps/lz4/lib/lz4.c:1541-1634 | copying a match byte by byte leaves the old bytes alone and makes every new byte equal to the one `offset` before it; offset 0 yields zeros |
| BlockFormat.PeriodicIsCopyMatch | deps/lz4/lib/lz4.c:1606-1633 | bytes that repeat with period `offset` are the byte-by-byte copy, however they were written |
| BlockFormat.TruncatedHistory | deps/lz4/lib/lz4frame.c:1552-1561 | decoding depends on the last 64 KB of history only |
| BlockFormat.DecodeLength | deps/lz4/lib/lz4.c:1636-1640 | the size of what a block decodes to is fixed by its sequences, not by the history |
| BlockFormat.FormatRoundTrip | deps/lz4/lib/lz4.c:811-1000 | the reference decoder undoes the encoding of any list of sequences and last literals |
| BlockFormat.SampleDecodes | deps/lz4/lib/lz4.c:1445-1634 | a block byte by byte, with long and short lengths and an offset of two bytes, and what it decodes to with any history |
| BlockFormat.WellEndedFrom | deps/lz4/lib/lz4.c:300-301 | sequences that stay clear of the end encode to a block that keeps the parsing restrictions |
| BlockCopy.MemCopy | deps/lz4/lib/lz4.c:1482-1484 | a copy between regions that do not overlap, and nothing else changes |
| BlockCopy.WildCopy | deps/lz4/lib/lz4.c:284-291 | copying eight bytes at a time continues the source at its distance, and over-copies by less than eight bytes |
| BlockCopy.ContinuePeriod | deps/lz4/lib/lz4.c:1606-1618 | copying from a multiple of the period continues the period |
| BlockCopy.DistanceBounds | deps/lz4/lib/lz4.c:1425-1426 | after the tables have been applied the source distance is a multiple of the offset, at least 8 |
| BlockCopy.CopyFirstEight | deps/lz4/lib/lz4.c:1606-1618 | the first eight bytes of a match repeat with its offset, for every offset below and above 8 |
| BlockCopy.CopyMatchBytes | deps/lz4/lib/lz4.c:1606-1634 | the table-driven copy leaves the bytes that copying one at a time would, inside the buffer; refuses exactly matches into the last five bytes |
| BlockDecoder.LiteralLength | deps/lz4/lib/lz4.c:1495-1505 | the literal length field, with an overlong one detected |
| BlockDecoder.MatchLength | deps/lz4/lib/lz4.c:1549-1558 | the match length field; failing means that it is malformed or runs into the last five bytes |
| BlockDecoder.CopyExtMatch | deps/lz4/lib/lz4.c:1561-1585 | a match that starts in an external dictionary, also one that runs on into the block |
| BlockDecoder.LiteralStage | deps/lz4/lib/lz4.c:1463-1531 | literals arrive unchanged on the shortcut, the wild copy and the final copy alike; going on, ending and refusing are decided by the fields |
| BlockDecoder.MatchStage | deps/lz4/lib/lz4.c:1472-1634 | a match is resolved against dictionary and output as the reference does, if and only if the shortcut or the careful path takes it |
| BlockDecoder.OneSequence | deps/lz4/lib/lz4.c:1445-1634 | one turn of the loop is one step of the reference decoder, and of the rule of acceptance |
| BlockDecoder.DecompressGeneric | deps/lz4/lib/lz4.c:1402-1645 | every access stays in its buffer; a result >= 0 is the reference decode; there is one if and only if the fields of the block, the room and the reach of the prefix allow it |
| BlockDecoder.DecompressSafe | deps/lz4/lib/lz4.c:1651-1656 | the same without dictionary |
| BlockDecoder.DecompressUsingDict | deps/lz4/lib/lz4.c:1882-1892 | no dictionary, prefix or external dictionary: the result is the reference decode with the dictionary as history |
| BlockDecoder.PlacementDoesNotMatter | deps/lz4/lib/lz4.c:1882-1892 | two decodings with equal history and room decode alike; the one with less history before its output refuses what the other accepts if and only if there is a late match |
| BlockDecoder.NeverRefused | deps/lz4/lib/lz4.c:1445-1634 | a block that decodes, ends well and fits is accepted in every mode |
| BlockDecoder.PlacementMatters | deps/lz4/lib/lz4.c:1463-1564 | one block with the same eight bytes of history: 32 bytes with them before the output, refused with them elsewhere |
| BlockAcceptance.PlacementDecides | deps/lz4/lib/lz4.c:1463-1564 | moving history away from the output loses exactly the blocks with a match that only the shortcut would take |
| BlockAcceptance.PlaceIndifferent | deps/lz4/lib/lz4.c:1463-1490 | without history, or with room for more than an offset reaches back, the place of the history makes no difference |
| BlockAcceptance.PlaceDecides64 | deps/lz4/lib/lz4.c:1463-1490 | with 64 KB of room it does: a block that is accepted behind any history of 17 bytes or more and refused away from it |
| BlockAcceptance.WellEndedAccepted | deps/lz4/lib/lz4.c:1508-1634 | blocks that decode, end well and fit are accepted wherever their history lies |
| BlockAcceptance.NothingFits | deps/lz4/lib/lz4.c:1508-1518 | with a negative capacity not even the first literals fit |
| BlockEncoder.Count | deps/lz4/lib/lz4.c:421-444 | the longest common prefix, up to the limit |
| BlockEncoder.EmitLength | deps/lz4/lib/lz4.c:822-827 | the bytes written for a literal length are its encoding |
| BlockEncoder.EmitMatchLength | deps/lz4/lib/lz4.c:897-907 | the four-at-a-time writer leaves the encoding of the match length |
| BlockEncoder.EmitPairs | deps/lz4/lib/lz4hc.c:462-467 | the two-at-a-time writer of the HC encoder leaves the same bytes |
| BlockEncoder.EmitMatch | deps/lz4/lib/lz4.c:853-909 | offset, match length and the second half of the token |
| BlockEncoder.EmitLast | deps/lz4/lib/lz4.c:976-1000 | the last literals |
| BlockCompressor.AcceptedIsFresh | deps/lz4/lib/lz4.c:795-798 | an index that passes the tests belongs to the current block and is at most 65535 back; stale entries never pass |
| BlockCompressor.AcceptedExactly | deps/lz4/lib/lz4.c:795-798 | of the entries of a good table exactly those of the current block that are within reach pass the tests |
| BlockCompressor.Probe | deps/lz4/lib/lz4.c:749-803 | a hit if and only if the entry found is of this block, within reach, and has the four bytes; the position probed takes its place |
| BlockCompressor.NoWrap | deps/lz4/lib/lz4.c:753-764 | for an advancing acceleration the 32-bit step counter does not wrap before the input ends |
| BlockCompressor.FindMatch | deps/lz4/lib/lz4.c:749-805 | a hit is a position with equal four bytes, at most 65535 back; positions are probed on schedule up to the first hit, none before it could have been one, and a miss has used up the schedule; the table keeps only usable or stale entries |
| BlockCompressor.MissedMeansNew | deps/lz4/lib/lz4.c:749-805 | a search that misses has seen no repetition: successive probes of equal hash differ or are far apart |
| BlockCompressor.CatchUp | deps/lz4/lib/lz4.c:808-809 | extending backwards keeps the match and never passes the anchor |
| BlockCompressor.ExtendMatch | deps/lz4/lib/lz4.c:880-884 | the match is as long as can be before the last five bytes |
| BlockCompressor.SequenceCost | deps/lz4/lib/lz4.c:811-910 | a sequence costs at most 256/255 of the input it covers |
| BlockCompressor.EmitSequence | deps/lz4/lib/lz4.c:811-910 | what is written is the encoding of the sequence, and it fits |
| BlockCompressor.WriteMatch | deps/lz4/lib/lz4.c:837-910 | the sequences written so far still cover and reproduce the input |
| BlockCompressor.TestNext | deps/lz4/lib/lz4.c:912-968 | the immediate retry is a hit if and only if the entry for it, after entering the position two back, repeats its four bytes; the table stays good |
| BlockCompressor.CompressLoop | deps/lz4/lib/lz4.c:723-974 | at the end of the main loop the output encodes sequences that reproduce the input up to the anchor |
| BlockCompressor.CompressBlock | deps/lz4/lib/lz4.c:649-1007 | for any hash function: at most n + n/255 + 16 bytes, a block that ends well and decodes to its input; equal bytes take exactly one literal and one match; with a vanishing step and no repeats, the block decodes to zeros and not to its input |
| BlockCompressor.Stream.PrepareTable | deps/lz4/lib/lz4.c:608-645 | after it every entry is stale for the block to come: 64 KB back, or below the start |
| BlockCompressor.Stream.CompressFastReset | deps/lz4/lib/lz4.c:1041-1075 | whatever went through the state before, the block decodes on its own to its input, and the state stays usable |
| BlockCompressor.CompressRun | deps/lz4/lib/lz4.c:1041-1075 | any run of blocks through one state: each decodes to its own input with no history |
| BlockCompressor.NotItself | deps/lz4/lib/lz4.c:753-762 | what a block with a vanishing step decodes to is not its input |
| BlockCompressor.SomeWithoutRepeats | deps/lz4/lib/lz4.c:717-717 | inputs that this happens to exist |
| BlockCompressor.VanishingStep | deps/lz4/lib/lz4.c:753-762 | every positive acceleration that is a multiple of 2^26 loses every input without repeats, through any state |
| PacketCompression.WriteSize | openvpn/openvpn/buffer/lz4.hpp:41-45 | four bytes from which the size is read back |
| PacketCompression.SizesInOrder | openvpn/openvpn/buffer/lz4.hpp:41-45 | the most significant byte comes first: sizes are ordered as their bytes are from the left |
| PacketCompression.Compress | openvpn/openvpn/buffer/lz4.hpp:29-56 | fails exactly on oversized input; otherwise the size and a block that decodes to the input |
| PacketCompression.Decompress | openvpn/openvpn/buffer/lz4.hpp:58-90 | accepted if and only if the size is positive and allowed, the block is one the decoder accepts, and it yields as many bytes as announced, which are the reference decode |
| PacketCompression.RoundTrip | openvpn/openvpn/buffer/lz4.hpp:29-90 | the input comes back if and only if it is not empty and within both limits |
| XxStripes.EatConcat | deps/lz4/lib/xxhash.c:384-440 | consuming a concatenation is consuming its parts, the rest of the first carried over |
| XxStripes.OneShot | deps/lz4/lib/xxhash.c:269-323 | the one-shot loop computes the hash of stripes, length and rest |
| XxStripes.State.Update | deps/lz4/lib/xxhash.c:384-440 | the state stands for everything fed so far, with the length wrapped at 32 bits and the large-length flag |
| XxStripes.State.Digest | deps/lz4/lib/xxhash.c:454-487 | the digest is the hash of everything that was fed |
| XxStripes.HashPieces | deps/lz4/lib/xxhash.c:371-487 | reset, any updates, digest: the hash of the concatenation |
| Xxh32.RuleIsValid | deps/lz4/lib/xxhash.c:261-323 | XXH32 is an instance, so all of this holds of it |
| Xxh32Vectors.PhraseHash | deps/lz4/lib/xxhash.c:261-323 | the published value of a phrase of 39 bytes: two stripes, a word, three bytes |
| Xxh32Vectors.LongHash | deps/lz4/lib/xxhash.c:261-323 | the published value of 101 bytes with a seed |
| Xxh64.RuleIsValid | deps/lz4/lib/xxhash.c:629-691 | so is XXH64, with its 64-bit length |
| Xxh64Vectors.PhraseHash | deps/lz4/lib/xxhash.c:629-691 | the published value of the same phrase |
| Xxh64Vectors.ShortHash | deps/lz4/lib/xxhash.c:629-691 | the published value of 14 bytes with a seed: words of eight and four bytes, two bytes |
| Xxh64Vectors.LongHash | deps/lz4/lib/xxhash.c:629-691 | the published value of 101 bytes with a seed: three stripes |
| FrameFormat.FeedConcat | deps/lz4/lib/lz4frame.c:1310-1762 | feeding two pieces is feeding their concatenation |
| FrameFormat.BeyondStays | deps/lz4/lib/lz4frame.c:1634-1676 | bytes behind the end of a frame neither fail it nor change its output |
| FrameFormat.RejectedIsRefused | deps/lz4/lib/lz4frame.c:1310-1762 | input that ends up rejected became so before any frame in it had ended |
| FrameFormat.NotRefused | deps/lz4/lib/lz4frame.c:1634-1676 | a frame that ended well is not refused, whatever follows it |
| FrameFormat.WellEndedStaysRegular | deps/lz4/lib/lz4frame.c:1588-1602 | blocks that decode and keep the end restrictions are taken, and never the reason for a refusal |
| FrameFormat.PlainStays | deps/lz4/lib/lz4frame.c:1542-1602 | frames of independent blocks, or of blocks larger than 64 KB, stay regular whatever their blocks hold |
| FrameFormat.RejectedStays | deps/lz4/lib/lz4frame.c:1310-1762 | what has been rejected stays rejected |
| FrameWriter.HeaderRead | deps/lz4/lib/lz4frame.c:1096-1168 | a header, written as a sum of the weights of its announcements, is read back as exactly those, with block size 256 * 4^id and its own length |
| FrameWriter.HeaderWritten | deps/lz4/lib/lz4frame.c:1110-1151 | every header that is accepted can be written that way |
| FrameWriter.HeaderFeeds | deps/lz4/lib/lz4frame.c:1085-1169 | fed to the machine, a header announces what it was written to say |
| FrameWriter.PlainBlockFeeds | deps/lz4/lib/lz4frame.c:1394-1507 | 2^31 + n announces n bytes as they are; they are output, and refused afterwards exactly if their checksum is wrong |
| FrameWriter.PackedBlockFeeds | deps/lz4/lib/lz4frame.c:1509-1611 | n announces a compressed block of n bytes, which is output decoded unless its checksum is wrong |
| FrameWriter.EndFeeds | deps/lz4/lib/lz4frame.c:1634-1676 | the end mark ends the frame if and only if the announced size was reached and the content checksum is right |
| FrameWriter.FrameRoundTrip | deps/lz4/lib/lz4frame.c:1310-1762 | what is written is read: a frame of any header and blocks ends the machine with the contents of the blocks |
| FrameWriter.CompressedContents | deps/lz4/lib/lz4frame.c:1542-1602 | independent blocks, each a piece of data as it is or as the block compressor leaves it, hold the data |
| FrameWriter.SkippableMagic | deps/lz4/lib/lz4frame.c:1096-1108 | sixteen magic numbers start a skippable frame, and no others |
| FrameWriter.SkippableRoundTrip | deps/lz4/lib/lz4frame.c:1678-1724 | a skippable frame is skipped to its end and no further, without output |
| FrameStages.DecodeHeader | deps/lz4/lib/lz4frame.c:1085-1169 | the verdict on a header: bad, skippable, incomplete, or what the frame is like |
| FrameStages.VerdictPrefix | deps/lz4/lib/lz4frame.c:1085-1169 | the verdict looks at no byte behind the header |
| FrameStages.HeaderStage | deps/lz4/lib/lz4frame.c:1339-1366 | decoding the header in place and from the store both follow the machine |
| FrameStages.BlockHeaderStage | deps/lz4/lib/lz4frame.c:1394-1447 | block headers: end mark, too large, uncompressed, compressed |
| FrameStages.BlockChecksumStage | deps/lz4/lib/lz4frame.c:1484-1507 | the checksum of an uncompressed block, in any pieces |
| FrameStages.SuffixStage | deps/lz4/lib/lz4frame.c:1634-1676 | the announced size and the content checksum end the frame |
| FrameStages.SkipSizeStage | deps/lz4/lib/lz4frame.c:1678-1711 | the size of a skippable frame, whether its magic number was stored or not |
| FrameStages.SkipStage | deps/lz4/lib/lz4frame.c:1713-1723 | skipping ends exactly at the end of the frame |
| FrameHistory.UpdateDict | deps/lz4/lib/lz4frame.c:1226-1288 | after output to the caller the last 64 KB (or all) of it end at dict + dictSize: grown, moved to dst, appended in tmp or joined |
| FrameHistory.UpdateDictWithinTmp | deps/lz4/lib/lz4frame.c:1248-1267 | the same for output flushed from tmpOut |
| FrameHistory.SaveWithinTmp | deps/lz4/lib/lz4frame.c:1733-1746 | history elsewhere is saved in front of a block that is still being flushed |
| FrameHistory.TailIsThere | deps/lz4/lib/lz4frame.c:1226-1288 | the history invariant: the last min(64 KB, total) bytes output end at dict + dictSize |
| FrameBlocks.SameDecoding | deps/lz4/lib/lz4frame.c:1552-1561 | histories that agree on 64 KB, or altogether, decode a block alike |
| FrameBlocks.DecodeWithHistory | deps/lz4/lib/lz4frame.c:1588-1602 | decoding with the history at hand is decoding with everything output so far |
| FrameBlocks.PlaceTmpOut | deps/lz4/lib/lz4frame.c:1576-1586 | a block of the largest size fits behind the history, or behind the room reserved for it |
| FrameBlocks.FlushLinked | deps/lz4/lib/lz4frame.c:1613-1631 | flushing delivers the next bytes of the block and keeps the history |
| FrameBlocks.SaveHistory | deps/lz4/lib/lz4frame.c:1747-1757 | between blocks the last 64 KB move to the temporary buffer |
| FrameDecoder.Decoder.HistoryIsTail | deps/lz4/lib/lz4frame.c:1368-1392 | between blocks the tail of everything decoded is in place, and the temporary buffer holds two histories and a block |
| FrameDecoder.Decoder.StepCopy | deps/lz4/lib/lz4frame.c:1449-1482 | uncompressed blocks pass through as far as input and output allow |
| FrameDecoder.Decoder.DecodeBlock | deps/lz4/lib/lz4frame.c:1542-1610 | a compressed block is decoded to the caller or to tmpOut, with history and checksums kept; it is taken if and only if the block decoder accepts it with its history standing where it does |
| FrameDecoder.Decoder.StepBlock | deps/lz4/lib/lz4frame.c:1509-1611 | a block that arrives in pieces is the block that arrives at once; it passes if and only if its checksum is right and it is accepted at the place that the room of the call decides |
| FrameDecoder.Decoder.RoomDecides | deps/lz4/lib/lz4frame.c:1542-1602 | with history up to the place to write to, calls with and without room for the largest block agree on every block but those with a late match |
| FrameDecoder.Decoder.RoomMatters | deps/lz4/lib/lz4frame.c:1542-1602 | for linked 64 KB blocks there is one that the first call takes and the second refuses |
| FrameDecoder.Decoder.StepFlush | deps/lz4/lib/lz4frame.c:1613-1631 | flushing goes on until the block is delivered or the room is used up |
| FrameDecoder.Decoder.EndCall | deps/lz4/lib/lz4frame.c:1727-1757 | after the call no history is left in a buffer that is not stable |
| FrameDecoder.Decoder.RunStages | deps/lz4/lib/lz4frame.c:1333-1725 | the loop ends, in step with the machine, having used up input or room unless the frame ended |
| FrameDecoder.Decoder.Decompress | deps/lz4/lib/lz4frame.c:1310-1762 | what was consumed has been fed to the machine, what was produced is its next output; done exactly at the end of the frame; an error means that a start of the input is invalid, before any end of the frame in it |
| FrameDecoder.Decoder.CallerWrites | deps/lz4/lib/lz4frame.c:1727-1757 | the caller may overwrite its buffers between calls |
| FrameRun.DecodeInPieces | deps/lz4/lib/lz4frame.c:1310-1762 | any split of the input, any capacities: the output is that of the machine, in at most as many productive calls as bytes read and written |
| FrameRun.DecodeFrame | deps/lz4/lib/lz4frame.c:1310-1762 | the same from a fresh context with XXH32 as checksum |
| FrameRun.FrameCompletes | deps/lz4/lib/lz4frame.c:1310-1762 | a frame with anything behind it, such as more frames: enough calls complete it, exactly at its end and with its output |
| FrameRun.DecodeWithRest | deps/lz4/lib/lz4frame.c:1310-1762 | the same for a run from a fresh context |
| FrameRun.DecodeWritten | deps/lz4/lib/lz4frame.c:1310-1762 | any frame that can be written comes back as the contents of its blocks, however it is cut up and whatever follows |
| FrameRun.OneEnd | deps/lz4/lib/lz4frame.c:1634-1676 | a frame has one end |
| FrameRun.RunsAgree | deps/lz4/lib/lz4frame.c:1310-1762 | two runs that complete a frame stop at the same place with the same output; an incomplete one has output a prefix |
| FrameRun.SameVerdict | deps/lz4/lib/lz4frame.c:1310-1762 | unless a frame has linked 64 KB blocks, no run refuses what another one completes |
| HashChain.ScanIsExact | deps/lz4/lib/lz4hc.c:227-241 | the naive scan: exactly the same-hash indices in the window, each once, decreasing |
| HashChain.CandidatesAre | deps/lz4/lib/lz4hc.c:227-241 | what a search looks at: exactly the positions of the text with the same hash, up to 65535 back, each once, nearest first |
| HashChain.WindowEdge | deps/lz4/lib/lz4hc.c:227 | the first position of a text is in the window up to 65535 bytes further on and drops out at the next one |
| HashChain.FollowLink | deps/lz4/lib/lz4hc.c:345-346 | following a stored distance leads to the next index of the scan or out of the window, despite the clamp |
| HashChain.LinksStep | deps/lz4/lib/lz4hc.c:121-128 | storing a distance in the 65536-entry table overwrites nothing still in the window |
| HashChain.HeadsStep | deps/lz4/lib/lz4hc.c:121-128 | the hash table holds the latest index of each hash, and the distance stored is the right one |
| HashChain.EntersForward | deps/lz4/lib/lz4hc.c:113-131 | entering index after index keeps both tables in agreement with the text |
| HashChain.InsertedAgrees | deps/lz4/lib/lz4hc.c:113-131 | the same as a law about the tables |
| HashChain.AgreesThroughout | deps/lz4/lib/lz4hc.c:113-131 | over a series of targets the tables agree with the text after every call if and only if the targets never decrease |
| HashChain.SteppedBack | deps/lz4/lib/lz4hc.c:113-131 | what positions entered a second time leave in the tables, and exactly when that is right |
| HashChain.Index.Insert | deps/lz4/lib/lz4hc.c:113-131 | on any tables: every position up to the target is entered; an index that was right is right afterwards if and only if the target does not step back |
| HashChain.InsertSeries | deps/lz4/lib/lz4hc.c:113-131 | a series of calls leaves the tables of that law |
| HashChain.Index.Walk | deps/lz4/lib/lz4hc.c:224-348 | the walk visits the candidates in order, up to the number of attempts; with attempts left, exactly the same-hash positions up to 65535 back |
| HashChain.CountBack | deps/lz4/lib/lz4hc.c:133-149 | the number of equal bytes before both positions, up to the nearer of the two limits |
| HashChain.BackIs | deps/lz4/lib/lz4hc.c:133-149 | those bytes agree, and the next ones, if the limits allow any, do not |
| HashChain.MatchIsCovered | deps/lz4/lib/lz4hc.c:132-261 | every match through a position is part of the widest one at its distance |
| HashChain.Index.FindWider | deps/lz4/lib/lz4hc.c:232-261 | the widest match of those tried, with what precedes it; with enough attempts no match through the position is longer, wherever it starts and whatever its distance: the two-byte test loses nothing |
| HashChain.Index.FindBest | deps/lz4/lib/lz4hc.c:383-396 | the longest match at the position itself of those tried; with enough attempts no match there is longer, at any distance up to 65535 |
| HashChain.BackAndForth | deps/lz4/lib/lz4hc.c:113-131 | two calls, back and then forth to the same index: the heads are right again, the links if and only if every hash entered again has several positions there and none before them within reach |
| HashChain.EnterAgain | deps/lz4/lib/lz4hc.c:113-131 | back by one and forth again: the position becomes its own predecessor |
| HashChain.EncodeNext | deps/lz4/lib/lz4hc.c:409-477 | the HC encoder writes the encoding of the sequence, of the size its price says |
| HashChain.PriceIsSize | deps/lz4/lib/lz4hc.c:1102-1122 | the prices of literals and sequences are the sizes of their encodings |
| Bits.OrBits | openvpn/openvpn/addr/ipv6.hpp:801-865 | the or on numbers is the logical or of each bit |
| Bits.AndBits | openvpn/openvpn/addr/ipv6.hpp:350-357 | the and on numbers is the logical and of each bit |
| Address128.Addr.GreaterEqual | openvpn/openvpn/addr/ipv6.hpp:886-897 | comparison is that of the numbers, with the scope deciding ties |
| Address128.Addr.BitAt | openvpn/openvpn/addr/ipv6.hpp:520-525 | a bit of a word is a bit of the number |
| Address128.Addr.Add | openvpn/openvpn/addr/ipv6.hpp:867-875 | the sum modulo 2^128, also when both operands are one object |
| Address128.Addr.Subtract | openvpn/openvpn/addr/ipv6.hpp:877-883 | the difference modulo 2^128 |
| Address128.Addr.ShiftLeft | openvpn/openvpn/addr/ipv6.hpp:801-836 | multiplication by a power of two modulo 2^128 for shifts of 0 to 128; fails beyond |
| Address128.Addr.ShiftRight | openvpn/openvpn/addr/ipv6.hpp:838-865 | division by a power of two for shifts of 0 to 128; fails beyond |
| Address128.Addr.SetBit | openvpn/openvpn/addr/ipv6.hpp:694-703 | sets a bit and leaves the others |
| Address128.Multiply | openvpn/openvpn/addr/ipv6.hpp:397-408 | the product modulo 2^128 |
| Address128.DivideStep | openvpn/openvpn/addr/ipv6.hpp:713-723 | one turn keeps numerator = quotient * denominator + remainder with the remainder below the mask |
| Address128.Divide | openvpn/openvpn/addr/ipv6.hpp:705-724 | numerator = quotient * denominator + remainder, remainder below the denominator, whatever the scopes; fails exactly on zero |
| Netmask.Mask32 | openvpn/openvpn/addr/ipv4.hpp:579-584 | the mask of a prefix length is that many ones followed by zeros |
| Netmask.PrefixLen32 | openvpn/openvpn/addr/ipv4.hpp:494-514 | five steps find the length of every contiguous mask and refuse everything else |
| Netmask.PrefixLenOfMask | openvpn/openvpn/addr/ipv4.hpp:494-514 | recognising undoes making a mask |
| Netmask.Mask128 | openvpn/openvpn/addr/ipv6.hpp:739-782 | the four words make up that many ones followed by zeros; fails over 128 |
| Netmask.PrefixLen128 | openvpn/openvpn/addr/ipv6.hpp:529-558 | the word selection reduces the search to one word: succeeds exactly on contiguous masks |
| Netmask.PrefixLenOfMask128 | openvpn/openvpn/addr/ipv6.hpp:529-558 | recognising undoes making a mask |
| Routes.CanonicalIsBlock | openvpn/openvpn/addr/route.hpp:169-182 | a route is canonical exactly when it is an aligned block of addresses |
| Routes.ContainsIsCovers | openvpn/openvpn/addr/route.hpp:208-214 | containing an address by masking is having it in the block |
| Routes.ContainsIsInside | openvpn/openvpn/addr/route.hpp:216-219 | containing a route is inclusion of blocks |
| Routes.NestedOrDisjoint | openvpn/openvpn/addr/route.hpp:208-219 | two blocks are nested or disjoint |
| Routes.ExtentOfMask | openvpn/openvpn/addr/ipv6.hpp:567-579 | the extent found by recognising the mask and shifting a one is the size of the block, or 0 for the whole space |
| Routes.SplitByMask | openvpn/openvpn/addr/route.hpp:221-236 | splitting with that extent is splitting into halves |
| Routes.Halves | openvpn/openvpn/addr/route.hpp:221-236 | splitting yields two adjacent blocks that make up the whole |
| Splitter.Find | openvpn/openvpn/addr/addrspacesplit.hpp:85-96 | a route has to be split exactly when a given route is a proper part of it |
| Splitter.AddressSpaceSplitter.Descend | openvpn/openvpn/addr/addrspacesplit.hpp:62-84 | appends the leaves of the block, and ends |
| Splitter.AddressSpaceSplitter.Build | openvpn/openvpn/addr/addrspacesplit.hpp:36-43 | refuses lists that are not canonical; otherwise both families asked for |
| Splitter.LeavesTile | openvpn/openvpn/addr/addrspacesplit.hpp:62-84 | the leaves fill the block in order, without gap or overlap |
| Splitter.LeavesAreSafe | openvpn/openvpn/addr/addrspacesplit.hpp:62-84 | every leaf is inside or disjoint from a given route of any scope if and only if it does not have its block as a proper part; for the scope of the space it always is |
| Splitter.LeavesAreCoarsest | openvpn/openvpn/addr/addrspacesplit.hpp:62-84 | any block without a given route as a proper part lies in one leaf, so every other such partition refines this one |
| Splitter.LeavesAreFew | openvpn/openvpn/addr/addrspacesplit.hpp:62-84 | at most 1 + bits * n leaves |
| Splitter.OtherScopesIgnored | openvpn/openvpn/addr/addrspacesplit.hpp:85-96 | the leaves are those of the comparable routes alone |
| Splitter.ScopedRouteStraddled | openvpn/openvpn/addr/addrspacesplit.hpp:85-96 | every scoped route of positive length, given alone, leaves the whole space in one piece that is neither inside it nor disjoint |
| Splitter.FamilyIsPartitioned | openvpn/openvpn/addr/addrspacesplit.hpp:36-43 | a whole family: each address in exactly one route, few of them, and each safe for a given route exactly if it does not have its block as a proper part, so for all with scope 0 |
| AddressText.Write | openvpn/openvpn/buffer/buffmt.hpp:27-41 | filling the buffer from its end gives the digits; it overflows exactly when they are too many |
| AddressText.WriteHex | openvpn/openvpn/buffer/buffmt.hpp:75-89 | a hextet never overflows |
| AddressText.WriteDecimal | openvpn/openvpn/buffer/buffmt.hpp:27-41 | a 32-bit number never overflows |
| AddressText.DigitsRead | openvpn/openvpn/buffer/buffmt.hpp:57-63 | digits read back as the number |
| AddressText.FindRun | openvpn/openvpn/buffer/bufip.hpp:43-84 | the first pass finds the leftmost longest run of zeros |
| AddressText.Ipv4 | openvpn/openvpn/buffer/bufip.hpp:23-34 | the four bytes in decimal, in network order |
| AddressText.WriteGroups | openvpn/openvpn/buffer/bufip.hpp:103-140 | the second pass writes the groups with "::" in place of the run |
| AddressText.Ipv6 | openvpn/openvpn/buffer/bufip.hpp:36-141 | the text, which the reference parser turns back into the address; dots exactly for IPv4-compatible and IPv4-mapped addresses |
| AddressText.RoundTrip | openvpn/openvpn/buffer/bufip.hpp:36-141 | every address is recovered from its text, mixed forms included |
| AddressText.GapIsLongestRun | openvpn/openvpn/buffer/bufip.hpp:103-140 | "::" stands for the leftmost longest run and only for two groups or more |
| AddressText.Notation | openvpn/openvpn/buffer/bufip.hpp:86-101 | for those the last field is four decimal numbers, the bytes of the last two groups; for all others every field is at most four hexadecimal digits |
| AddressPool.Pool.AddAddr | openvpn/openvpn/addr/pool.hpp:47-54 | owned addresses stay as they are, new ones are free |
| AddressPool.Pool.AcquireAddr | openvpn/openvpn/addr/pool.hpp:76-96 | ends without error; hands out the first free entry of the list and drops those before it, or all owned addresses are in use |
| AddressPool.Pool.AcquireSpecific | openvpn/openvpn/addr/pool.hpp:108-117 | succeeds exactly if the address is owned and free |
| AddressPool.Pool.ReleaseAddr | openvpn/openvpn/addr/pool.hpp:122-130 | an owned address becomes free and goes to the end of the free list, even if it is there already |
| AddressPool.Run | openvpn/openvpn/addr/pool.hpp:47-130 | any series of calls on a new pool gets exactly the answers that the calls before entitle the caller to |
| AddressPool.FlagsAre | openvpn/openvpn/addr/pool.hpp:47-130 | the map says which addresses were added, and which of them were handed out and not released since |
| AddressPool.ReleasedIsAvailable | openvpn/openvpn/addr/pool.hpp:122-130 | an address that was released and not handed out since can be had: no depletion, no refusal |
| AddressPool.AddedIsAvailable | openvpn/openvpn/addr/pool.hpp:47-54 | so can one that was added and never handed out |
| AddressPool.RefusedForAReason | openvpn/openvpn/addr/pool.hpp:108-117 | a refused address was never added, or was handed out and not released since |
| AddressPool.HandedOutOnce | openvpn/openvpn/addr/pool.hpp:76-130 | no address is handed out twice without a release in between |
| AddressPool.DepletedMeansAllInUse | openvpn/openvpn/addr/pool.hpp:76-96 | when the pool is depleted every address ever added was handed out and not released since |
| ClientLifecycle.RunKeepsInv | client.go:98-204 | in every interleaving there is one right to release the client, and one to delete the handle |
| ClientLifecycle.ReleasedAtMostOnce | client.go:188-204 | both are released at most once |
| ClientLifecycle.ReleasedInTheEnd | client.go:180-204 | once all goroutines are done and the client is freed, exactly once |
| ClientLifecycle.ReleasedByWhoIsBound | client.go:124-161 | once all goroutines are done, a Connect that got to its C call, or a Stop that found the client neither freed nor running, has led to exactly one release |
| ClientLifecycle.StatsUseLiveClient | client.go:164-177 | while statistics are read the client has not been released |
| ClientLifecycle.ConnectUsesLiveClient | client.go:98-138 | if no release is under way when Connect starts, the client is not released under it |
| ClientLifecycle.ReleaseUnderConnect | client.go:143-161 | otherwise it can be |
| ClientLifecycle.StartUnderRelease | client.go:98-161 | the converse: from any reachable state in which Connect can start while somebody is on the way to the release, a continuation releases the client under it |
| ClientLifecycle.StopBeforeConnect | client.go:143-161 | and that state is reached |

## Left out

- PacketCompression.Compress: the default entry point compresses with a fresh state; the model takes the reusable-state entry point on a fresh state, which follows the same path.
- BlockDecoder.DecompressGeneric: of a negative result only the sign is modelled, not the position it encodes; overflow checks on 64-bit pointers are left out because they cannot fire.
- BlockCompressor.CompressBlock: models the unlimited output mode, which the wrapper always uses, with tables of 16- and 32-bit indices; limitedOutput, fillOutput, byPtr tables and dictionaries on the compressing side are left out.
- BlockEncoder.Count: the number of equal leading bytes of two words is a function on bytes, not a count of trailing zero bits.
- FrameDecoder.Decoder.Decompress: the size hint is modelled only as zero or not; the region set aside for the temporary buffer has a fixed place and must not touch the caller's buffers; with stableDst the caller must leave the history in use alone, which MayWrite spells out; a context is not used again after an error.
- FrameRun.DecodeInPieces: for frames of linked 64 KB blocks that have a late block, refusal is stated call by call (FrameDecoder.Decoder.StepBlock, RoomDecides), not as a condition on a whole series of calls.
- HashChain.Index.FindBest: with pattern analysis off, in one segment.
- HashChain.Index.FindWider: in one segment, without pattern analysis, chain swap and favorDecSpeed; the length to beat exceeds the look-back, as all callers ensure.
- HashChain.EncodeNext: the unlimited mode only, in a buffer as large as the bound for the whole input.
- ClientLifecycle.RunKeepsInv: the context's cancellation and the C calls are steps without effect on the client's fields; callbacks are left out.
- Splitter.AddressSpaceSplitter.Build: throwing on a bad list is a result; the version mask is two flags.
- LZ4_decompress_fast, partial decoding, LZ4_compress_destSize and the streaming block API: other contracts, not used by the wrapper.
- LZ4F compression, LZ4F_decompress_usingDict and LZ4F_getFrameInfo: the decoder is the hard direction.
- The optimal parser of lz4hc.c: a heuristic without an exact specification.
- Signed increments of addresses, hashing of addresses, text parsing through asio, Buffer, Endian and base64 helpers: easy or library code.
- The counters of the pool: they are not exact, because specific acquisition leaves entries on the free list.
- cgo shim, callbacks, command line, platform code: input and output, or forwarding.
