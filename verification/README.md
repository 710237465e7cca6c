# Verified model of the RaptorQ media transport

The repository protects real-time audio and video with a systematic fountain code. An epoch of audio
channel groups, or a media frame, is cut into self-describing pieces that become the source symbols of
one block; source and repair symbols travel in datagrams that may be lost, repeated or reordered; the
receiver hands out source pieces at once, fills holes from recovered blocks, and plays an epoch exactly
as it was sent or reports it missing. A planner decides which datagrams of the frames at hand to send
now, and a backfill store keeps recent frames for retransmission.

This project models the packetizers, decoders, receivers, the planner, the store and the transport
framing, and proves what they promise over all inputs and all runs.

How the model is laid out:

- `MachineInts`, `Arithmetic`, `Collections`, `ByteCodec`, `Wrappers` hold the machine integers with
  their saturating and wrapping operations, ceiling division, queues and stable sorting, and tables of
  little-endian fields.
- `Crc32` is a bitwise reference of the IEEE checksum (section 8 of RFC 1952). `RaptorQ` takes the
  fountain code as a parameter: two functions, and `Lawful`, which says that the code is systematic and
  that from genuine symbols the decoder gives the true object or nothing, surely the object once all
  source symbols are in, and nothing from fewer distinct symbols than the block has (symbol ids are
  24 bits wide, section 3.2 of RFC 6330). The systematic symbols alone form such a code, so the laws
  can be met (`SystematicIsLawful`).
- `Datagram`, `SequenceTracking`, `FecDecoding`, `FecEncoding` are the datagram layer.
- `AudioTypes`, `Geometry`, `ShardHeaders`, `EpochSharding`, `EpochEncoding`, `ClosedWindows`,
  `AudioDecoding`, `AudioDecoderRuns`, `GenuineAudio` are the multichannel audio packetizer and decoder.
- `Assembly`, `ExactAssembly`, `Playout`, `Session`, `SessionRuns` are the audio session receiver;
  `EndToEnd` joins encoder and receiver, `EpochDelivery`, `UnseenEpochs`, `InterleavedEpochs` and
  `EpochCompletion` say which epochs come out, and `PlayedEpochs` which of them are played.
- `MediaFragments`, `MediaLayout`, `MediaEncoding`, `MediaDecoding`, `MediaEndToEnd`, `MediaDelivery` are
  the media frames.
- `Planner`, `PlannerOrder`, `PlannerGuarantees` and `PlannerRules` are the deadline planner, `Backfill` the
  store, `Transport` the message framing.

Where the source updates an object in place, a class does the same and each of its methods is proved
equal to a transition function on the object's value; what holds over runs is then proved about that
function. What these functions answer is also stated without them, from the bytes, fields and
numbers it is given. Where the source walks a hash table in an unspecified order, the order is a parameter and the
results hold for every order. `usize` is 64 bits wide.

Some promises turned out narrower than the documentation reads; each is given with the inputs that break
it and the condition under which it holds.

- The sequence tracker records at most 4,096 numbers of a forward gap, so a wider one hides losses:
  `ObserveTracks` says exactly when nothing is lost from the record, `WideGapHidesLoss` exhibits a run. It
  also puts a number back into `missing` that had come ahead of a gap: `ObserveOverReports` says exactly
  when, `ReorderingOverReports` exhibits 10, 12, 13, and without it `LossExactlyReported` makes the report
  exact.
- The packet checksum is switched by a flag inside the bytes it covers. `HeaderBurstAccepted` says exactly
  which short corruptions of the header go through: those that clear the flag. They may also move the
  packet to another block id; `ClearedFlagRelabels` shows that every checksummed datagram can be so moved.
- When the block decoder closes a block it drops the symbols of every open block more than 64 ids behind,
  without closing it. A media frame therefore comes out exactly once when none of its blocks can do that to
  another (`FrameDeliveredOnce`; at most 65 blocks whose ids do not wrap, `ConsecutiveStay`), and every
  other frame is lost in some order of its source datagrams (`UnsafeFrameLost`, `SplitFrameLost`). Of audio
  epochs, whose source shards are handed out at once, only recovery is affected: it is exact within the
  window (`EpochCompletesWhenDecodable`), and outside it symbols are forgotten (`FirstSymbolForgotten`).

## Model

| member | source | states |
|---|---|---|
| `EndToEnd.ExactOrMissing` | crates/music-audio-session/src/lib.rs:218-297 | After any run of genuine datagrams (lost, repeated, reordered, interleaved across epochs), reads and expiries, the next genuine datagram is accepted and completes only groups and epochs that were sent, and the next read returns a sent epoch under the timestamp asked for, or reports exactly that timestamp missing. |
| `EpochCompletion.EpochCompletesAmongOthers` | crates/music-audio-session/src/lib.rs:218-315 | After any run of other epochs' datagrams, expiries and reads before an epoch's timestamp, its source datagrams in any order, with repetitions, repairs and further reads, interleaved with datagrams of fewer other blocks than the decoder (128) and the receiver hold in flight, complete it, byte for byte. |
| `EpochCompletion.EpochCompletesWhenDecodable` | crates/music-audio-session/src/lib.rs:218-315 | With any loss: while every other block in flight or to come is within the 64-block window of this one, the epoch completes if and only if at some moment the code can decode the datagrams of it that arrived by then. |
| `PlayedEpochs.EpochIsPlayed` | crates/music-audio-session/src/lib.rs:218-457 | To the speaker: an epoch that completes among these events is what a later read of its timestamp returns, as it was sent, if and only if fewer later timestamps are buffered at that read than the buffer holds. |
| `PlayedEpochs.SourcesArePlayed` | crates/music-audio-session/src/lib.rs:218-457 | With all its source datagrams arrived, in any order and interleaved as above, the read of an epoch's timestamp is exact unless the buffer is full of later ones. |
| `EpochDelivery.PushCollects` | crates/music-audio-session/src/lib.rs:218-283 | One datagram of an epoch being collected completes it exactly when it brings the last shard or lets the code recover the rest; otherwise exactly its own shard is gained. |
| `InterleavedEpochs.DatagramSpares` | crates/music-audio-session/src/lib.rs:218-337 | A datagram of another block, evictions included, leaves the assembly of a block and what was delivered of it as they were while fewer others are in flight than the limits, and its symbols too when those blocks are within the window. |
| `InterleavedEpochs.OldestEvicted` | crates/music-audio-session/src/lib.rs:232-280 | The limit is needed: a new block that meets a full table drops the oldest open epoch, and a shard of it that comes next is ignored. |
| `InterleavedEpochs.FirstSymbolForgotten` | crates/raptorq-datagram-fec/src/multichannel_audio.rs:788-873 | Outside the window the decoder forgets: the first datagram of a block that makes it evict one more than 64 ids ahead loses the symbol it brought at once. |
| `UnseenEpochs.RunUnseen` | crates/music-audio-session/src/lib.rs:218-367 | A block none of whose datagrams arrived is in no table, queue or window of receiver and decoder after any run, evictions included. |
| `EndToEnd.RunExact` | crates/music-audio-session/src/lib.rs:218-367 | Everything a receiver holds after such a run (decoder symbols, partial groups, assemblies, buffered epochs) is as sent. |
| `EndToEnd.PushExact` | crates/music-audio-session/src/lib.rs:218-283 | A datagram of a sent epoch is never refused, and whatever it completes equals a sent group or epoch. |
| `EndToEnd.TakeShardExact` | crates/music-audio-session/src/lib.rs:232-280 | A genuine shard leaves the receiver exact; a wanted block then has exactly one more shard, or its epoch completes exactly, and only with its last shard. |
| `EndToEnd.TakeExact` | crates/music-audio-session/src/lib.rs:285-297 | A read hands out a sent epoch under the requested timestamp or says it is missing. |
| `ExactAssembly.GroupPushExact` | crates/music-audio-session/src/lib.rs:580-636 | A group assembly that holds genuine fragments takes the next one without error, keeps exactly the fragments it got, and completes exactly when the last arrives, with the original payload and caller fields. |
| `ExactAssembly.EpochPushExact` | crates/music-audio-session/src/lib.rs:493-513 | The epoch assembly adds the shard to its group, duplicates included, and never reports a conflict among genuine shards. |
| `ExactAssembly.FinishedExact` | crates/music-audio-session/src/lib.rs:544-560 | A complete assembly yields the epoch that was sent: every group in caller order, byte for byte. |
| `Assembly.PushGroup` | crates/music-audio-session/src/lib.rs:580-636 | One shard into a group assembly: the first differing field, the duplicate, the hole still open, the gap in the payload, or the finished group. |
| `Assembly.GroupRun` | crates/music-audio-session/src/lib.rs:580-602 | For any shards of one group: the first to bring a fragment is the one kept, and the recovery count is the number of fragments that a recovered shard brought first. |
| `Assembly.GroupPushIs` | crates/music-audio-session/src/lib.rs:580-636 | Whatever the shard: refused exactly if one of the nine group fields differs, ignored if its slot is filled; otherwise exactly its slot is filled, and the group comes out with the last slot if its pieces fit together. |
| `Assembly.JoinGroup` | crates/music-audio-session/src/lib.rs:604-625 | The joining loop over fragments sorted by offset gives the payload exactly when they are contiguous and of the declared length. |
| `Assembly.PayloadIs` | crates/music-audio-session/src/lib.rs:604-625 | A filled group gives its bytes if and only if its pieces, in order of offset, each start where those before end and have the declared length together; the bytes are then all of theirs in that order. |
| `Assembly.PushEpoch` | crates/music-audio-session/src/lib.rs:493-513 | One shard into an epoch assembly: the first differing field, a group already complete, or the group's own outcome. |
| `Assembly.EpochPushIs` | crates/music-audio-session/src/lib.rs:493-513 | Whatever the shard: refused exactly if one of the eight epoch fields differs, ignored if its group is complete; otherwise only its group changes, and moves to the complete ones when it comes out. |
| `EpochCompletion.PremisesCanBeMet` | crates/music-audio-session/src/lib.rs:218-297 | The premises of these statements hold of a concrete epoch, a lawful code and a run that consists of its source datagram. |
| `SessionRuns.Replay` | crates/music-audio-session/src/lib.rs:190-367 | Over every run of pushes of arbitrary bytes, reads and expiries, error returns included, the receiver state is sound (tables, bounds, books). |
| `SessionRuns.RunSound` | crates/music-audio-session/src/lib.rs:178-367 | Spelled out: queues enumerate their tables without repeats and within bounds, open and ignored blocks are disjoint, the playout buffer is bounded and keyed by its own timestamps, nothing open or buffered is at or before the last timestamp played, and every epoch ever opened is open, buffered, played, duplicate or late, incomplete, stale, or skipped by a read, the saturating counters showing these numbers. |
| `SessionRuns.EnsureSlotOk` | crates/music-audio-session/src/lib.rs:323-337 | Making room drops only open epochs, moves them to the ignored blocks, and leaves a free slot. |
| `SessionRuns.TakeReceiverOk` | crates/music-audio-session/src/lib.rs:285-297 | A read abandons everything at or before its timestamp and keeps the receiver sound. |
| `SessionRuns.ExactMovesForward` | crates/music-audio-session/src/lib.rs:285-297 | When a read finds an epoch, every earlier read of the same or a later timestamp was followed by a read of an earlier one; so reads that never go back find each timestamp at most once. |
| `SessionRuns.ExpireReceiverOk` | crates/music-audio-session/src/lib.rs:299-315 | Expiry keeps the receiver sound and its books balanced. |
| `Session.MultichannelAudioReceiver.PushDatagram` | crates/music-audio-session/src/lib.rs:218-283 | The in-place push: new state and result are those of the specification, for every datagram. |
| `Session.MultichannelAudioReceiver.MakeSlot` | crates/music-audio-session/src/lib.rs:323-337 | The eviction loop in place. |
| `Session.MultichannelAudioReceiver.TakeForPlayout` | crates/music-audio-session/src/lib.rs:285-297 | The in-place read, walking the table in some order that lists exactly the assemblies due. |
| `Session.MultichannelAudioReceiver.ExpireBefore` | crates/music-audio-session/src/lib.rs:299-315 | The in-place expiry, in some order of the assemblies due. |
| `Playout.ExactPlayoutBuffer.Insert` | crates/music-audio-session/src/lib.rs:416-436 | Insertion in place: a late or repeated timestamp changes nothing; otherwise the epoch joins, and beyond the bound as many stay as fit, every one of them later than each that goes, all values unchanged. |
| `Playout.ExactPlayoutBuffer.TakeForPlayout` | crates/music-audio-session/src/lib.rs:438-445 | A read in place: the epoch of exactly this timestamp if it is there, missing if not; exactly the later ones stay, and the timestamp becomes the last one played. |
| `Playout.ExactPlayoutBuffer.ExpireBefore` | crates/music-audio-session/src/lib.rs:447-457 | Expiry in place: exactly what is not earlier stays, and the count is that of the rest. |
| `SessionRuns.InsertOk` | crates/music-audio-session/src/lib.rs:416-436 | Insertion keeps the buffer bounded and keyed by its own timestamps, and every epoch is kept or counted in the outcome. |
| `SessionRuns.TakeOk` | crates/music-audio-session/src/lib.rs:438-445 | A read returns the buffered epoch of exactly this timestamp; every other epoch is kept or was earlier. |
| `SessionRuns.PushCounts` | crates/music-audio-session/src/lib.rs:218-283 | What an accepted datagram adds to the counters: itself, the shards handed over by whether they were recovered, the groups it completed, and an epoch exactly if it completed one; all saturating. |
| `SessionRuns.ReadCounts` | crates/music-audio-session/src/lib.rs:285-297 | A read counts one epoch played or one missing, and every assembly it gives up. |
| `Geometry.GeometryForGroups` | crates/raptorq-datagram-fec/src/multichannel_audio.rs:126-189 | The search over candidates finds, among all fragment sizes within budget and symbol limit, the one with the fewest bytes on the wire (symbols times overhead + 32 + 4 + 8 + 72 + fragment), then the fewest symbols, then the smallest fragment, and says what it costs; it fails exactly when the largest fragment size still needs too many symbols. |
| `Geometry.CheapestCost` | crates/raptorq-datagram-fec/src/multichannel_audio.rs:163-170 | Below 2^64 - 1 the bytes reported are the true product and no admissible fragment size has a smaller one; at 2^64 - 1 none stays below it. |
| `EpochEncoding.CheapestToSend` | crates/raptorq-datagram-fec/src/multichannel_audio.rs:126-189 | In datagrams: the source datagrams of the epoch cut this way, with transport overhead and room for a trailer each, take exactly the bytes reported, and cut at any other admissible size they take as many or more. |
| `Geometry.CandidatesSuffice` | crates/raptorq-datagram-fec/src/multichannel_audio.rs:135-147 | A best candidate is best over every fragment size from one byte to the maximum, not only over the candidates. |
| `Geometry.CandidateBelow` | crates/raptorq-datagram-fec/src/multichannel_audio.rs:138-147 | For every admissible fragment size there is a candidate no larger with the same symbol count, hence no worse a score. |
| `Geometry.CollectCandidates` | crates/raptorq-datagram-fec/src/multichannel_audio.rs:135-147 | The loops collect exactly the candidate fragment sizes. |
| `Geometry.OptimalIsUnique` | crates/raptorq-datagram-fec/src/multichannel_audio.rs:149-170 | There is only one optimal fragment size. |
| `Geometry.AdmittedAtAll` | crates/raptorq-datagram-fec/src/multichannel_audio.rs:172-181 | Some fragment size meets the symbol limit if and only if the largest one does. |
| `Geometry.CheckedCountIs` | crates/raptorq-datagram-fec/src/multichannel_audio.rs:151-156 | The overflow-checked fold gives the sum, or nothing exactly when it leaves 64 bits. |
| `Geometry.Config.SymbolSize` | crates/raptorq-datagram-fec/src/multichannel_audio.rs:104-117 | A symbol size is at least one byte over the shard header and leaves room for framing and transport overhead in the budget. |
| `EpochSharding.SlotsNumbered` | crates/raptorq-datagram-fec/src/multichannel_audio.rs:508-556 | The K shards are numbered 0..K-1 and K is the geometry's count: each index belongs to the one group and fragment the numbering puts there. |
| `EpochSharding.SlotFound` | crates/raptorq-datagram-fec/src/multichannel_audio.rs:508-556 | Every fragment of every group has its number. |
| `EpochSharding.FragmentsTile` | crates/raptorq-datagram-fec/src/multichannel_audio.rs:517-524 | Each group's fragments put together are its payload, for the empty group too. |
| `EpochSharding.FragmentWithin` | crates/raptorq-datagram-fec/src/multichannel_audio.rs:517-550 | Offsets and lengths fit their header fields and lie within the group. |
| `EpochSharding.ShardValid` | crates/raptorq-datagram-fec/src/multichannel_audio.rs:528-551 | Every shard header passes its own validation at the chosen symbol size. |
| `EpochSharding.SymbolDecodes` | crates/raptorq-datagram-fec/src/multichannel_audio.rs:898-922 | Symbol i of an epoch decodes to shard i, header and payload, under the count and index a receiver expects. |
| `EpochSharding.ObjectIsSource` | crates/raptorq-datagram-fec/src/multichannel_audio.rs:505-563 | The object of an epoch is a valid RaptorQ source of exactly K symbols. |
| `EpochSharding.SourceSymbolIs` | crates/raptorq-datagram-fec/src/multichannel_audio.rs:505-556 | Source symbol i of the object is shard symbol i. |
| `ShardHeaders.ShardRoundTrip` | crates/raptorq-datagram-fec/src/multichannel_audio.rs:248-324 | Decoding inverts encoding on every header valid for its symbol, whatever follows it. |
| `ShardHeaders.ShardReencodes` | crates/raptorq-datagram-fec/src/multichannel_audio.rs:248-324 | Encoding inverts decoding: a decoded header gives back the symbol's first 72 bytes. |
| `ShardHeaders.IdentifyingBytes` | crates/raptorq-datagram-fec/src/multichannel_audio.rs:283-300 | "MAE1" and 1 are bytes 0 to 4, payload kind 1 to 3 is byte 5 and sample format 0 to 4 byte 6. |
| `ShardHeaders.SessionFieldsLayout` | crates/raptorq-datagram-fec/src/multichannel_audio.rs:299-305 | Flags, session, configuration and frame count are the little-endian integers at bytes 7, 8, 16 and 20. |
| `ShardHeaders.TimingFieldsLayout` | crates/raptorq-datagram-fec/src/multichannel_audio.rs:302-306 | Epoch, timestamp and sample rate are those at bytes 24, 32 and 68. |
| `ShardHeaders.GroupFieldsLayout` | crates/raptorq-datagram-fec/src/multichannel_audio.rs:307-320 | The twelve group and fragment fields are those at bytes 40 to 67. |
| `ShardHeaders.SymbolBytes` | crates/raptorq-datagram-fec/src/multichannel_audio.rs:505-556 | Behind its 72 bytes of header a source symbol is the fragment, then zeros to the end. |
| `ShardHeaders.ShardAccepted` | crates/raptorq-datagram-fec/src/multichannel_audio.rs:283-390 | From the bytes: a symbol holds a shard if and only if it begins with "MAE1", 1, a known kind and format, counts and rates are positive, every index is below its count, and the payload lies within group and symbol. |
| `ShardHeaders.ShardRefused` | crates/raptorq-datagram-fec/src/multichannel_audio.rs:283-390 | Which check refuses the rest, from their bytes. |
| `ShardHeaders.SymbolRoundTrip` | crates/raptorq-datagram-fec/src/multichannel_audio.rs:898-922 | A symbol made of header, fragment and padding decodes to that shard. |
| `ShardHeaders.DecodedShardInRange` | crates/raptorq-datagram-fec/src/multichannel_audio.rs:283-380 | Whatever the bytes, a decoded shard's indices are below their counts and its payload lies within its group. |
| `ShardHeaders.EncodeInto` | crates/raptorq-datagram-fec/src/multichannel_audio.rs:248-281 | A header is written over the front of the symbol, everything behind it unchanged, or nothing is written. |
| `EpochEncoding.MultichannelAudioFecEncoder.EncodeEpoch` | crates/raptorq-datagram-fec/src/multichannel_audio.rs:473-617 | The whole encoder: every refusal in the source's order, otherwise the datagrams of the epoch cut at the optimal fragment size; a refused epoch consumes no block id or sequence number. |
| `EpochEncoding.EncodedIs` | crates/raptorq-datagram-fec/src/multichannel_audio.rs:505-617 | What an encoded epoch says of itself and its datagrams: sources by index, then repairs by symbol id, under one block id and consecutive sequence numbers. |
| `EpochEncoding.EpochRefused` | crates/raptorq-datagram-fec/src/multichannel_audio.rs:473-500 | Which check refuses an epoch, and that of the groups the first one at fault is named. |
| `EpochEncoding.MultichannelAudioFecEncoder.FillObject` | crates/raptorq-datagram-fec/src/multichannel_audio.rs:505-556 | The buffer filled in place is the object of the cut, symbol after symbol. |
| `EpochEncoding.MultichannelAudioFecEncoder.WriteShard` | crates/raptorq-datagram-fec/src/multichannel_audio.rs:525-554 | One shard written in place changes only its symbol. |
| `EpochEncoding.MultichannelAudioFecEncoder.EncodeCut` | crates/raptorq-datagram-fec/src/multichannel_audio.rs:558-616 | Sources sorted by index, then repairs, with consecutive packet sequences; the encoder's counters advance by one block and all its datagrams. |
| `EpochEncoding.SentDatagramParses` | crates/raptorq-datagram-fec/src/multichannel_audio.rs:567-592 | Every datagram of an epoch is a genuine symbol of its block in order, repairs carry the session id, and its size is exactly framing plus one symbol. |
| `EpochEncoding.OutgoingIs` | crates/raptorq-datagram-fec/src/multichannel_audio.rs:567-597 | Within the budget no datagram is refused on its way out. |
| `EpochEncoding.EveryDatagramRoutable` | crates/raptorq-datagram-fec/src/multichannel_audio.rs:682-716 | Block, sequence, source index and session are read back from every datagram, source or repair. |
| `AudioDecoderRuns.RunKeeps` | crates/raptorq-datagram-fec/src/multichannel_audio.rs:767-895 | After every call, malformed input and error returns included: the RaptorQ state's blocks are among the open ones, at most the limit are open and their queue enumerates them, open and delivered blocks are disjoint from closed ones. |
| `AudioDecoderRuns.EmissionsSeparated` | crates/raptorq-datagram-fec/src/multichannel_audio.rs:801-836 | Between two emissions of one source index of a block at least max_completed_blocks closures of other blocks happened. |
| `AudioDecoderRuns.EmissionsDistinct` | crates/raptorq-datagram-fec/src/multichannel_audio.rs:801-836 | One push never emits a source index twice. |
| `AudioDecoderRuns.PushKeeps` | crates/raptorq-datagram-fec/src/multichannel_audio.rs:767-838 | One push keeps the tables consistent, marks what it emits, and emits only what was not marked. |
| `AudioDecoderRuns.EvictKeeps` | crates/raptorq-datagram-fec/src/multichannel_audio.rs:858-873 | Eviction meets the limit, closes what it evicts and never evicts the newest block. |
| `AudioDecoderRuns.ExpireKeeps` | crates/raptorq-datagram-fec/src/multichannel_audio.rs:848-851 | Expiry keeps the tables consistent. |
| `GenuineAudio.GenuinePush` | crates/raptorq-datagram-fec/src/multichannel_audio.rs:767-838 | A datagram of a sent epoch is never refused; for an open block exactly the shards not handed out before come out, byte for byte, its own marked systematic and all others recovered: its own at once, or all missing ones, the latter exactly when the code can decode the symbols then held. |
| `GenuineAudio.FillGenuine` | crates/raptorq-datagram-fec/src/multichannel_audio.rs:818-832 | Filling holes from the recovered object delivers exactly the missing shards as they were put in. |
| `AudioDecoding.MultichannelAudioFecDecoder.PushDatagram` | crates/raptorq-datagram-fec/src/multichannel_audio.rs:767-838 | The in-place push equals its specification for every datagram. |
| `AudioDecoding.OutputSorted` | crates/raptorq-datagram-fec/src/multichannel_audio.rs:801-838 | Whatever was pushed, the shards of one datagram come out in the order of their source indices. |
| `AudioDecoding.PushRefused` | crates/raptorq-datagram-fec/src/multichannel_audio.rs:767-800 | Whatever the bytes: what is refused or ignored before delivery, and that only a refusal of the block decoder leaves a trace, in that decoder alone. |
| `AudioDecoding.MultichannelAudioFecDecoder.Deliver` | crates/raptorq-datagram-fec/src/multichannel_audio.rs:801-837 | Systematic delivery and hole filling in place. |
| `AudioDecoding.MultichannelAudioFecDecoder.ObserveBlock` | crates/raptorq-datagram-fec/src/multichannel_audio.rs:858-873 | The eviction loop in place. |
| `AudioDecoding.MultichannelAudioFecDecoder.ExpireBlock` | crates/raptorq-datagram-fec/src/multichannel_audio.rs:848-851 | Expiry in place. |
| `AudioDecoding.MultichannelAudioFecDecoder.Remember` | crates/raptorq-datagram-fec/src/multichannel_audio.rs:886-895 | The closed window in place. |
| `ClosedWindows.RememberedOk` | crates/raptorq-datagram-fec/src/multichannel_audio.rs:886-895 | A bounded window holds exactly the last ids that entered it, without repeats. |
| `ClosedWindows.ForgottenAfterMax` | crates/raptorq-datagram-fec/src/multichannel_audio.rs:886-895 | An id is forgotten only after as many others entered as the window holds. |
| `PlannerGuarantees.ScheduleInPriorityOrder` | crates/raptorq-datagram-fec/src/schedule.rs:334-345 | The schedule is in order of class (vital source, vital repair within 5 ms of its deadline, other source, other repair), then importance, deadline, stream, frame, source before repair; so a repair precedes a source exactly if it is such a rescue and the source is delta or data. |
| `PlannerGuarantees.BlockedNeverOutranks` | crates/raptorq-datagram-fec/src/schedule.rs:378-383 | Whatever is held back for capacity came up after everything scheduled, and is not before it in that order. |
| `PlannerGuarantees.VerdictsAreThePlan` | crates/raptorq-datagram-fec/src/schedule.rs:366-396 | The number held back is the number of candidates met at full capacity, and every drop verdict is in the plan's drop list with its reason. |
| `PlannerRules.VerdictsFollowRules` | crates/raptorq-datagram-fec/src/schedule.rs:366-396 | Every decision from the inputs: expired if it could not leave before its deadline, stale if a delta repair meets a queue delay of at least the policy's milliseconds, held back if all free places are taken, and scheduled otherwise, counted from what was scheduled before it. |
| `PlannerRules.PlanIsVerdicts` | crates/raptorq-datagram-fec/src/schedule.rs:366-396 | The plan is these decisions: the n-th scheduled is entry n, sent n spacings after the first, every drop is listed with its reason, and the rest is counted as held back. |
| `PlannerRules.PlannedFromFrames` | crates/raptorq-datagram-fec/src/schedule.rs:301-332 | Every candidate is a datagram of one of the first 4,096 frames under that frame's stream, sequence and deadline, of the kind its flags and priority say, named by its own block, fragment, index and role. |
| `PlannerRules.LimitReachedWhen` | crates/raptorq-datagram-fec/src/schedule.rs:318-366 | The limit flag is set if and only if there are more than 4,096 frames, more than 262,144 block visits, or more datagrams than the plan limit. |
| `PlannerGuarantees.ExpiredStaysExpired` | crates/raptorq-datagram-fec/src/schedule.rs:368-392 | Once a candidate was dropped as expired, none later with the same or an earlier deadline is scheduled. |
| `PlannerGuarantees.SchedulePacedInTime` | crates/raptorq-datagram-fec/src/schedule.rs:385-393 | Entry k is sent exactly k spacings after the queue drains, strictly before its deadline, and no sum or product saturates. |
| `PlannerGuarantees.DropsJustified` | crates/raptorq-datagram-fec/src/schedule.rs:368-392 | Every expired drop had a deadline at or before the send time it would have got; every stale drop is a delta repair behind the configured queue delay. |
| `PlannerGuarantees.PlanIsAccountedFor` | crates/raptorq-datagram-fec/src/schedule.rs:345-405 | Scheduled, dropped and held back add up to the admitted candidates, each at most once, at most the normalized plan limit and 65,536; scheduled are within capacity. |
| `PlannerGuarantees.PlanIsComplete` | crates/raptorq-datagram-fec/src/schedule.rs:314-366 | If the plan limit was not reached, the admitted candidates are exactly all datagrams of all frames, each once. |
| `PlannerGuarantees.OneFrameIsSourceFirst` | crates/raptorq-datagram-fec/src/schedule.rs:301-405 | For one frame the plan is entry by entry the source-first order if and only if no capacity, deadline or stale rule is in force. |
| `PlannerGuarantees.AdmittedInOrder` | crates/raptorq-datagram-fec/src/schedule.rs:334-343 | All candidates, scheduled or not, come up in that order. |
| `PlannerOrder.KeyIsOrder` | crates/raptorq-datagram-fec/src/schedule.rs:334-343 | The sort key orders two candidates if and only if their fields are in that order. |
| `PlannerGuarantees.KeyOrderIsTotal` | crates/raptorq-datagram-fec/src/schedule.rs:334-343 | The sort key is a total preorder. |
| `PlannerGuarantees.AllScheduled` | crates/raptorq-datagram-fec/src/schedule.rs:368-396 | Nothing is dropped or held back if and only if each candidate could go right after those before it. |
| `Planner.PlanDatagrams` | crates/raptorq-datagram-fec/src/schedule.rs:301-405 | The planner as a loop program: groups collected and sorted, nested loops left early at either work limit; its plan is the specified one. |
| `Planner.PlanGroups` | crates/raptorq-datagram-fec/src/schedule.rs:359-402 | The nested loops over groups and blocks decide exactly the candidates within the block-visit and plan limits, and report exactly when one of them was cut short. |
| `Planner.AdmitBlock` | crates/raptorq-datagram-fec/src/schedule.rs:370-400 | One block's range of indices, each decided in turn until the plan limit. |
| `Planner.Decide` | crates/raptorq-datagram-fec/src/schedule.rs:368-396 | One decision in the source's order of tests. |
| `MediaLayout.EncodedOrderIsIdentity` | crates/raptorq-datagram-fec/src/media.rs:331-335 | In a laid-out frame every datagram has exactly one block and role, none beyond the end has one, and the encoded order is the identity. |
| `MediaLayout.EntriesNameBlocks` | crates/raptorq-datagram-fec/src/media.rs:337-363 | Every entry of a send order names the block and fragment its datagram lies in, and the role its place there gives it. |
| `MediaLayout.SourceFirstPermutes` | crates/raptorq-datagram-fec/src/media.rs:344-363 | The source-first order is a permutation of the encoded one with all sources first and each role in encoded order. |
| `MediaLayout.ComputeSendPlan` | crates/raptorq-datagram-fec/src/media.rs:344-363 | The loops over the blocks produce the specified order. |
| `MediaLayout.PushEntries` | crates/raptorq-datagram-fec/src/media.rs:460-475 | One entry per index of a role's range, in order. |
| `MediaLayout.BlockRanges` | crates/raptorq-datagram-fec/src/media.rs:423-447 | The ranges of a laid-out block are its source symbols, then its repair symbols, without saturation. |
| `MediaLayout.StatsAddUp` | crates/raptorq-datagram-fec/src/media.rs:287-325 | In a laid-out frame source and repair counts of the statistics add up to the datagrams, and the largest block is within them. |
| `MediaLayout.StatsCountRoles` | crates/raptorq-datagram-fec/src/media.rs:287-325 | The statistics count exactly the datagrams the frame gives the source and the repair role. |
| `MediaFragments.FragmentRoundTrip` | crates/raptorq-datagram-fec/src/media.rs:123-227 | A header is written exactly for compact metadata (flags one byte, duration two, decode offset within 32,767 ms of the timestamp), and read back whatever follows. |
| `MediaFragments.FragmentLayout` | crates/raptorq-datagram-fec/src/media.rs:156-227 | Which bytes of a block each field is: codec and flags, the little-endian integers, and the decode timestamp as the presentation timestamp plus the signed offset at bytes 40 and 41, -32,768 standing for none. |
| `MediaFragments.FragmentRefused` | crates/raptorq-datagram-fec/src/media.rs:156-227 | A block of 44 bytes or more is refused if and only if the offset is not the sentinel and timestamp plus offset leaves 64 bits. |
| `MediaFragments.FragmentWritten` | crates/raptorq-datagram-fec/src/media.rs:123-220 | The bytes written for codec, flags and decode timestamp, and which of the three limits a refused header exceeds first. |
| `MediaFragments.DecodedIsCompact` | crates/raptorq-datagram-fec/src/media.rs:156-227 | Whatever can be read is compact and can be written and read again unchanged. |
| `MediaFragments.EncodeFragmentInto` | crates/raptorq-datagram-fec/src/media.rs:123-154 | The header written into a buffer in place, or the buffer left alone. |
| `MediaEncoding.EncodedFrameIs` | crates/raptorq-datagram-fec/src/media.rs:532-624 | A frame is encoded exactly when it can be cut, its metadata is compact and its first block has at most 56,403 symbols; it has the priority its codec and keyframe flag say, and its blocks partition the datagrams under consecutive ids and carry the symbols of header and fragment. |
| `MediaEncoding.EncodedSymbol` | crates/raptorq-datagram-fec/src/media.rs:561-613 | Datagram k of block j is symbol k of fragment j's object under block j's id. |
| `MediaEncoding.EncodedFrameMoves` | crates/raptorq-datagram-fec/src/media.rs:561-613 | A frame's datagrams carry consecutive packet sequence numbers and are all 36 bytes plus one symbol long; the encoder moves on by exactly its blocks and datagrams. |
| `MediaEncoding.FragmentSize` | crates/raptorq-datagram-fec/src/media.rs:537-552 | A block holds its symbols' bytes less the 44 of the header. |
| `MediaEncoding.RefusedFrame` | crates/raptorq-datagram-fec/src/media.rs:537-600 | A refused frame costs no block id and no sequence number, and says which limit it exceeds first. |
| `MediaEncoding.EncodedStats` | crates/raptorq-datagram-fec/src/media.rs:285-325 | The statistics of an encoded frame: payload and 44 bytes a block protected, all datagrams on the wire, sources and repairs together all of them, the largest block's datagrams. |
| `MediaEncoding.MediaFecEncoder.EncodeFrame` | crates/raptorq-datagram-fec/src/media.rs:532-624 | The fragment loop in place: every error return and the encoder's counters as specified. |
| `MediaEncoding.MediaFecEncoder.EncodeFragmentBlock` | crates/raptorq-datagram-fec/src/media.rs:564-612 | One round of the fragment loop. |
| `MediaEncoding.BlockDataLength` | crates/raptorq-datagram-fec/src/media.rs:579-583 | No block is longer than the first. |
| `MediaDelivery.FrameRecoveredOnce` | crates/raptorq-datagram-fec/src/media.rs:639-681 | Any list of a frame's datagrams that brings every block what it needs (enough to decode at some moment, for a block that stays in the window; its only source symbol otherwise) makes exactly one push return the frame, as it was sent, and every other return nothing. |
| `MediaDelivery.FrameDeliveredOnce` | crates/raptorq-datagram-fec/src/media.rs:639-681 | The same for any list, repeats and repairs included, with every source datagram, when no block of the frame pushes another with several source symbols out of the window. |
| `MediaDelivery.EncodedFrameDeliveredOnce` | crates/raptorq-datagram-fec/src/media.rs:532-681 | From encoder to decoder: a frame of at most 65 blocks whose ids do not wrap comes out exactly once. |
| `MediaDelivery.ConsecutiveStay` | crates/raptorq-datagram-fec/src/lib.rs:1305-1311 | Consecutive block ids all stay in each other's window if and only if there are at most 65 and none wraps. |
| `MediaDelivery.UnsafeFrameLost` | crates/raptorq-datagram-fec/src/lib.rs:1236-1311 | The window condition is needed: for every frame that breaks it there is an order of all its source datagrams in which no push returns the frame. |
| `MediaDelivery.SplitFrameLost` | crates/raptorq-datagram-fec/src/lib.rs:1236-1311 | A concrete such frame, of 66 blocks with two source symbols each, at a new decoder. |
| `MediaEndToEnd.FrameExactlyOnce` | crates/raptorq-datagram-fec/src/media.rs:645-681 | Of the recovered blocks of any encodable frame, however many, in any order and with repetitions, exactly one gives the frame with its payload and metadata; every other gives nothing. |
| `MediaEndToEnd.MediaExactOrNothing` | crates/raptorq-datagram-fec/src/media.rs:639-681 | After any run of datagrams of sent frames the next is accepted and gives nothing or exactly the frame it belongs to. |
| `MediaEndToEnd.EncodedFrameIsGenuine` | crates/raptorq-datagram-fec/src/media.rs:561-613 | Every datagram the encoder returns for a frame is one the previous statement covers. |
| `MediaEndToEnd.FragmentTaken` | crates/raptorq-datagram-fec/src/media.rs:660-681 | One more fragment completes the frame exactly when it was the last one missing. |
| `MediaEndToEnd.JoinExact` | crates/raptorq-datagram-fec/src/media.rs:732-751 | Joining the fragments gives the payload. |
| `MediaDecoding.FrameOncePerWindow` | crates/raptorq-datagram-fec/src/media.rs:660-681 | Over any run of arbitrary datagrams, between two endings of one frame a frame of its stream with a sequence at least 129 higher came to its end. |
| `MediaDecoding.PushMediaKeeps` | crates/raptorq-datagram-fec/src/media.rs:660-751 | Whatever arrives, `received` equals the number of filled slots, no complete frame stays open, and no push reports an incomplete frame. |
| `MediaDecoding.FragmentOutcome` | crates/raptorq-datagram-fec/src/media.rs:660-751 | Whatever the fragment: a conflicting one is refused and one already held ignored, without effect; any other takes its slot, and with the last slot the frame is handed out if its fragments have the declared length together, and lost if not. |
| `MediaDecoding.FramesRemembered` | crates/raptorq-datagram-fec/src/media.rs:754-758 | Finished frames are remembered if they are of another stream or at most 128 behind. |
| `MediaDecoding.MediaRunKeeps` | crates/raptorq-datagram-fec/src/media.rs:639-681 | The same after every run. |
| `MediaDecoding.MediaFecDecoder.PushDatagram` | crates/raptorq-datagram-fec/src/media.rs:639-681 | The in-place push equals its specification for every datagram. |
| `MediaDecoding.MediaFecDecoder.FinishFrame` | crates/raptorq-datagram-fec/src/media.rs:732-751 | Joining in a loop, with both of its errors. |
| `Backfill.StoreIsLatest` | crates/raptorq-datagram-fec/src/backfill.rs:113-137 | After any insertions the store holds the last `capacity` distinct keys in order of latest insertion, each with its latest frame's bytes. |
| `Backfill.GetFindsLatest` | crates/raptorq-datagram-fec/src/backfill.rs:139-141 | A key is found exactly while fewer than `capacity` newer keys came, and then as its latest frame: metadata, statistics and datagrams. |
| `Backfill.GetFindsNothingElse` | crates/raptorq-datagram-fec/src/backfill.rs:139-141 | A key never inserted is not found. |
| `Backfill.RequestAnswered` | crates/raptorq-datagram-fec/src/backfill.rs:143-170 | A request gets the requested datagrams that exist, each as often and in the order it was requested, or nothing. |
| `Backfill.WholeFrameAnswered` | crates/raptorq-datagram-fec/src/backfill.rs:143-170 | A whole-frame request gets every datagram under its index. |
| `Backfill.MediaBackfillStore.InsertEncodedFrame` | crates/raptorq-datagram-fec/src/backfill.rs:113-137 | The insertion in place, with the frame's statistics: the replaced frame goes, the oldest beyond the capacity go. |
| `Backfill.MediaBackfillStore.Fulfill` | crates/raptorq-datagram-fec/src/backfill.rs:143-170 | The lookup as specified. |
| `Transport.PreparedEpochWraps` | crates/raptorq-fec-transport/src/lib.rs:139-195 | Under a prepared configuration wrapping an epoch never fails, no message exceeds the maximum, and each gives the original datagram back. |
| `Transport.PayloadInvertsWrap` | crates/raptorq-fec-transport/src/lib.rs:198-205 | A message is accepted with a datagram if and only if it is that datagram wrapped. |
| `Transport.MessageLayout` | crates/raptorq-fec-transport/src/lib.rs:591-642 | A message is the stream id in eight bytes, highest first, if there is one, then "AEP1", then the datagram. |
| `Transport.WrapsWhen` | crates/raptorq-fec-transport/src/lib.rs:148-180 | An epoch is wrapped exactly when no source follows a repair and every message fits; messages correspond one to one. |
| `Transport.WrapStopsAt` | crates/raptorq-fec-transport/src/lib.rs:148-180 | A refused epoch names its first datagram that is a source behind a repair or does not fit. |
| `Transport.Adapter.WrapEpoch` | crates/raptorq-fec-transport/src/lib.rs:148-195 | The wrapping loop with both of its errors. |
| `Transport.PushUnwraps` | crates/raptorq-fec-transport/src/lib.rs:207-215 | A wrapped datagram reaches the decoder as it was; anything else changes nothing. |
| `Datagram.HeaderRoundTrip` | crates/raptorq-datagram-fec/src/lib.rs:223-286 | Decoding inverts encoding on every valid header, whatever follows it. |
| `Datagram.HeaderLayout` | crates/raptorq-datagram-fec/src/lib.rs:236-286 | Every header field is the little-endian integer at its own bytes of the datagram, behind "RQD2", 2 and 32. |
| `Datagram.HeaderAccepted` | crates/raptorq-datagram-fec/src/lib.rs:236-286 | Bytes are a header if and only if they begin with "RQD2", 2, 32, 1, have no flag but the two known, and declare at most 56,403 symbols, exactly as many as the object takes at that symbol size. |
| `Datagram.HeaderRefused` | crates/raptorq-datagram-fec/src/lib.rs:236-286 | Which check refuses the rest, from their bytes. |
| `Datagram.ReencodedHeader` | crates/raptorq-datagram-fec/src/lib.rs:328-383 | Re-encoding a decoded prefix reproduces its 28 bytes. |
| `Datagram.EncodeInto` | crates/raptorq-datagram-fec/src/lib.rs:223-234 | A header is written over the front of the buffer, or nothing is written. |
| `Datagram.GeometryAccepted` | crates/raptorq-datagram-fec/src/lib.rs:487-520 | Geometry is accepted exactly when the symbol count is the length divided by the symbol size, rounded up, and at most 56,403. |
| `Datagram.PayloadAccepted` | crates/raptorq-datagram-fec/src/lib.rs:288-340 | A payload is accepted if and only if the length is the declared one and bytes 28 to 31 are the checksum of all others; it is then the declared bytes behind the header, the session id those behind it, and a refusal says which of the two failed. |
| `Datagram.WrapRoundTrip` | crates/raptorq-datagram-fec/src/lib.rs:194-221 | A wrapped packet gives back its header fields and its bytes. |
| `Datagram.AttachRoundTrip` | crates/raptorq-datagram-fec/src/multichannel_audio.rs:620-630 | Attaching the session id keeps the packet and every field but flag and checksum, and the id is read back. |
| `Datagram.PayloadBurstRejected` | crates/raptorq-datagram-fec/src/lib.rs:288-340 | Altering any run of at most four consecutive bytes behind the header of an accepted datagram makes the receiver report a checksum mismatch. |
| `Datagram.HeaderBurstAccepted` | crates/raptorq-datagram-fec/src/lib.rs:288-383 | Altering any run of at most four consecutive bytes of the checksummed header of an accepted datagram goes through if and only if byte 7 is one lower and the bytes before it are unchanged: the flag is cleared, at most three bytes of the block id differ besides, and the packet is taken as it was. |
| `Datagram.HeaderBurstDecoded` | crates/raptorq-datagram-fec/src/lib.rs:288-383 | The same in terms of the header that arrives: the payload is accepted if and only if its flag is off and the length is the declared one. |
| `Datagram.ClearedFlagRelabels` | crates/raptorq-datagram-fec/src/lib.rs:288-383 | The hole exists for every accepted, checksummed datagram: with the flag cleared it passes with its packet under any block id with the same highest byte. |
| `Datagram.HeaderBurstRejected` | crates/raptorq-datagram-fec/src/lib.rs:288-383 | As long as the checksum flag survives, such a change is reported as a checksum mismatch. |
| `Crc32.SplitUpdate` | crates/raptorq-datagram-fec/src/lib.rs:751-763 | Continuing a checksum over a second piece equals one pass over both. |
| `Crc32.ChecksumResidue` | crates/raptorq-datagram-fec/src/lib.rs:751-763 | Any bytes followed by their own checksum, low byte first, have the checksum 0x2144DF1C. |
| `Crc32.LastBitFoldsPolynomial` | crates/raptorq-datagram-fec/src/lib.rs:751-763 | For any bytes, inverting the highest bit of the last one inverts exactly the bits 0xEDB88320 of the checksum. |
| `Crc32.ChecksumOfZero` | crates/raptorq-datagram-fec/src/lib.rs:751-763 | The checksum of one zero byte is 0xD202EF8D, that of nothing 0. |
| `Crc32.XorOfWords` | crates/raptorq-datagram-fec/src/lib.rs:755-759 | The exclusive-or of the model is the machine's, on words of 32 bits. |
| `Crc32.ByteStepInjective` | crates/raptorq-datagram-fec/src/lib.rs:755-759 | One byte step is injective in the register for a fixed byte. |
| `Crc32.ShortRunInjective` | crates/raptorq-datagram-fec/src/lib.rs:755-759 | Different runs of at most four bytes lead to different registers. |
| `Crc32.BurstChangesChecksum` | crates/raptorq-datagram-fec/src/lib.rs:761-763 | A change confined to at most four consecutive bytes changes the checksum. |
| `RaptorQ.PacketRoundTrip` | crates/raptorq-datagram-fec/src/lib.rs:1176-1185 | A serialized packet gives back source block, symbol id and symbol. |
| `RaptorQ.PacketFields` | crates/raptorq-datagram-fec/src/lib.rs:1236-1250 | And so it is read from any bytes. |
| `RaptorQ.PacketLayout` | crates/raptorq-datagram-fec/src/lib.rs:1176-1185 | A packet is block number, symbol id in three bytes, highest first, and the symbol (section 3.2 of RFC 6330). |
| `FecDecoding.GenuineStep` | crates/raptorq-datagram-fec/src/lib.rs:1221-1281 | A genuine datagram is never refused: of a closed block it is ignored; otherwise the block closes with its true object if and only if the code can decode the symbols now held, and keeps the symbol if not. |
| `FecDecoding.AcceptedOrRefused` | crates/raptorq-datagram-fec/src/lib.rs:1236-1275 | Whatever the packet: one of a closed block is ignored, one of another source block or length refused without effect, one of another geometry refused at the cost of what its block held, and no other is refused. |
| `FecDecoding.DecodesWhen` | crates/raptorq-datagram-fec/src/lib.rs:1236-1275 | Under a lawful code all source symbols suffice to decode and fewer than K distinct symbols never do. |
| `FecDecoding.DeliveredOncePerWindow` | crates/raptorq-datagram-fec/src/lib.rs:1236-1311 | Over any run, between a closure and a later delivery of a block some block with an id at least 65 higher was delivered or expired. |
| `FecDecoding.ClosedIs` | crates/raptorq-datagram-fec/src/lib.rs:1278-1311 | Closing a block forgets it and every block and closed id more than 64 ids behind it, and nothing else. |
| `FecDecoding.DatagramFecDecoder.PushDatagram` | crates/raptorq-datagram-fec/src/lib.rs:1221-1281 | The in-place push equals its specification for every datagram. |
| `FecDecoding.DatagramFecDecoder.ExpireBlock` | crates/raptorq-datagram-fec/src/lib.rs:1294-1299 | Expiry in place, with pruning. |
| `FecDecoding.DatagramFecDecoder.Prune` | crates/raptorq-datagram-fec/src/lib.rs:1305-1311 | Open and completed blocks more than 64 ids below the current one are forgotten; every other stays with what it holds. |
| `FecEncoding.DatagramFecEncoder.EncodeBlock` | crates/raptorq-datagram-fec/src/lib.rs:1039-1059 | A block's K source packets, then its repairs with consecutive symbol ids and packet sequences; on any error nothing changes. |
| `FecEncoding.EncodedBlockIs` | crates/raptorq-datagram-fec/src/lib.rs:1039-1059 | An object becomes a block if and only if it is not empty, fits the configured room and 32 bits, and takes at most 56,403 symbols; its datagrams are its K symbols and then the repairs in order, under consecutive sequence numbers, and the encoder moves on by exactly those. |
| `FecEncoding.SymbolDatagramParses` | crates/raptorq-datagram-fec/src/lib.rs:1154-1198 | Every packet has framing plus one symbol and parses to exactly this genuine symbol. |
| `FecEncoding.RepairRunContiguous` | crates/raptorq-datagram-fec/src/lib.rs:845-895 | Over any mix of accepted and refused calls the repairs are one run: consecutive symbol ids from K plus the initial ordinal, below 2^24 and never repeated, consecutive sequences modulo 2^32. |
| `FecEncoding.AdditionalMoves` | crates/raptorq-datagram-fec/src/lib.rs:845-895 | A refused call changes nothing; an accepted one moves both cursors by what it emits. |
| `FecEncoding.AdditionalWhen` | crates/raptorq-datagram-fec/src/lib.rs:845-870 | A batch is emitted if and only if it is 1 to 4,096 symbols of at most 16 MiB together whose ids stay below 2^24. |
| `FecEncoding.OpenCursorWhen` | crates/raptorq-datagram-fec/src/lib.rs:789-820 | A repair encoder opens if and only if the geometry is right, the data has the declared length of at most 16.25 MiB, and the ordinals already emitted leave its ids within 2^24; it starts there. |
| `FecEncoding.OpenCursorValid` | crates/raptorq-datagram-fec/src/lib.rs:789-820 | A repair encoder that opens has a cursor valid for its data, as every later call needs it. |
| `FecEncoding.RaptorQRepairEncoder.EncodeAdditional` | crates/raptorq-datagram-fec/src/lib.rs:845-895 | The in-place call equals its specification and leaves the cursor alone on failure. |
| `SequenceTracking.LossNeverUnderReported` | crates/raptorq-datagram-fec/src/sequence.rs:45-109 | Across wraparound, with live gaps of at most 4,096: everything before `next_expected` was received and every number never received from there to the highest seen is in `missing`. |
| `SequenceTracking.ObserveTracks` | crates/raptorq-datagram-fec/src/sequence.rs:45-95 | One observation keeps that picture, and keeps loss fully reported exactly when the gap was within the limit. |
| `SequenceTracking.ObservationIs` | crates/raptorq-datagram-fec/src/sequence.rs:45-95 | What is reported of a position: the expected number, exactly how many were skipped, the highest seen so far; beyond all others it is regular, before the expected one it is not, nor is a number lost so far while losses are fully reported. |
| `SequenceTracking.FirstObservationIs` | crates/raptorq-datagram-fec/src/sequence.rs:45-75 | The first number seen is taken as the expected one, and nothing is missing. |
| `SequenceTracking.ObserveOverReports` | crates/raptorq-datagram-fec/src/sequence.rs:45-95 | One observation keeps received numbers out of `missing` if and only if it does not open a gap over a number that had come ahead of it. |
| `SequenceTracking.LossExactlyReported` | crates/raptorq-datagram-fec/src/sequence.rs:45-109 | Over a run with tracked gaps and none opened over a received number, `missing` is exactly the set of numbers never received, and the count is the true loss. |
| `SequenceTracking.ReorderingOverReports` | crates/raptorq-datagram-fec/src/sequence.rs:62-95 | The condition is needed: observing 10, 12, 13 reports 12, which arrived. |
| `SequenceTracking.WideGapHidesLoss` | crates/raptorq-datagram-fec/src/sequence.rs:74-79 | A concrete run with a wider gap in which a lost number is not reported. |
| `SequenceTracking.AdvanceTracks` | crates/raptorq-datagram-fec/src/sequence.rs:101-109 | Advancing skips exactly the numbers received ahead of time and terminates. |
| `SequenceTracking.SequenceTracker.Observe` | crates/raptorq-datagram-fec/src/sequence.rs:45-95 | The observation in place. |
| `SequenceTracking.SequenceTracker.AdvanceExpected` | crates/raptorq-datagram-fec/src/sequence.rs:101-109 | The advance loop in place. |

## Left out

- RaptorQ matrix arithmetic and the optimized checksum code: foreign libraries; a lawful code is a parameter and the checksum is the bitwise reference.
- K plus repair symbols beyond 2^24 for the block at hand: the foreign encoder's own limit on symbol ids, a precondition of the block, epoch and media encoders.
- Sockets, asynchronous senders, the browser bindings, error texts, benchmarks and test harnesses.
- The adaptive controller: floating-point policy; its decision (symbol geometry and a repair count per block) is a parameter of the media encoder.
- Telemetry, the datagram buffer pool and the recovery decision of the scheduler: counters or short branches.
- `loss_fraction` and the overhead of a frame's statistics (its ratio is floating point, its bytes one subtraction).
- The sender object of the audio session, which only counts what the audio encoder returns, and the millisecond planning interface, which only converts units before calling the planner.
- Datagram class and path intent of planned datagrams: renamings of object kind and role, which the model keeps.
- In-place update of the partial frames and of the group and epoch assemblies: they are values in the tables of the classes that own them, and their methods return the updated value; aliasing is not modelled, and the source language excludes it for owned values.
- Exhaustion of memory and panics on arithmetic overflow outside the modelled integers (a transport overhead near 2^64, the unbounded sum reported in a too-many-symbols error).
- What the foreign decoder returns for symbols of different objects: the laws bind it on genuine symbols only, and the all-input results hold for whatever it returns.
- What the foreign encoder does with an empty object, or with one of 56,404 to 65,535 symbols, for which the source builds it before it checks the header: the model refuses both with the header's own error.
- Which sets of K or more symbols suffice to decode: the laws of the code leave it open; completion is proved from the source symbols, and otherwise if and only if the code can decode what arrived.
- Strictly increasing playout: callers may read earlier timestamps again, so a timestamp may be reported missing more than once; what it can never do is in `ExactMovesForward`.
