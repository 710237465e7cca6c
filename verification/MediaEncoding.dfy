/**
 The media encoder: a frame is cut into fragments, each fragment gets a header and becomes one FEC
 block. The FEC decision of the adaptive controller is a parameter.
 */
module MediaEncoding {
  import opened Arithmetic
  import opened ByteCodec
  import opened Datagram
  import opened FecDecoding
  import opened FecEncoding
  import opened MachineInts
  import opened MediaFragments
  import opened MediaLayout
  import opened RaptorQ
  import opened Wrappers

  datatype Priority = VideoKey | AudioPriority | VideoDelta | DataPriority

  /** `MediaCodec::priority` */
  function PriorityOf(m: Metadata): Priority {
    match m.codec
    case OpusCodec => AudioPriority
    case Aac => AudioPriority
    case H264 => if HasFlag(m.flags, FLAG_KEYFRAME) then VideoKey else VideoDelta
    case Unknown => DataPriority
    case DataCodec => DataPriority
  }

  /** Audio codecs, H.264 with and without the keyframe flag (bit 0), and everything else. */
  ghost predicate IsPriority(m: Metadata, p: Priority) {
    && (p.AudioPriority? <==> m.codec.OpusCodec? || m.codec.Aac?)
    && (p.VideoKey? <==> m.codec.H264? && m.flags % 2 == 1)
    && (p.VideoDelta? <==> m.codec.H264? && m.flags % 2 == 0)
    && (p.DataPriority? <==> m.codec.Unknown? || m.codec.DataCodec?)
  }

  lemma PriorityIs(m: Metadata)
    ensures IsPriority(m, PriorityOf(m))
  {
  }

  datatype MediaFrame = MediaFrame(metadata: Metadata, payload: Bytes)

  /** Symbol geometry, and how many repair symbols a block of so many source symbols gets. */
  datatype Decision = Decision(sourceSymbols: u16, symbolSize: u16, repair: u16 -> u32) {
    function MaxBlock(): nat {
      Max(sourceSymbols, 1) * Max(symbolSize, 1)
    }

    function MaxFragment(): nat {
      SatSub(MaxBlock(), MEDIA_HEADER_LEN)
    }

    /** Every block's symbol ids fit the 24-bit namespace. */
    ghost predicate Usable() {
      forall k: u16 :: k + repair(k) <= ESI_LIMIT
    }
  }

  // ----- cutting a payload

  function FragmentCount(length: nat, max: nat): nat
    requires max > 0
  {
    Max(CeilDiv(length, max), 1)
  }

  function FragmentOf(payload: Bytes, max: nat, i: nat): Bytes {
    var start := i * max;
    var end := Min(start + max, |payload|);
    if start < end then payload[start..end] else []
  }

  /** Every fragment starts within the payload, or is the one empty fragment of an empty payload. */
  lemma StartWithin(length: nat, max: nat, i: nat)
    requires max > 0 && i < FragmentCount(length, max)
    ensures i * max <= length
  {
    CeilDivCovers(length, max);
    if i > 0 {
      MulAtMost(i, CeilDiv(length, max) - 1, max);
    }
  }

  lemma FragmentLength(payload: Bytes, max: nat, i: nat)
    requires max > 0 && i < FragmentCount(|payload|, max)
    ensures |FragmentOf(payload, max, i)| == Min(max, |payload| - i * max)
  {
    StartWithin(|payload|, max, i);
  }

  function HeaderOf(frame: MediaFrame, max: nat, i: nat): FragmentHeader
    requires max > 0 && |frame.payload| <= U32_MAX
    requires i < FragmentCount(|frame.payload|, max) <= U16_MAX
  {
    StartWithin(|frame.payload|, max, i);
    FragmentHeader(frame.metadata, i, FragmentCount(|frame.payload|, max), |frame.payload|, i * max)
  }

  /** The frame can be cut this way and its metadata fits the compact header. */
  ghost predicate Cuttable(frame: MediaFrame, max: nat) {
    max > 0 && |frame.payload| <= U32_MAX && FragmentCount(|frame.payload|, max) <= U16_MAX && Compact(frame.metadata)
  }

  /** The object of block `i`: header, then fragment. */
  ghost function BlockData(frame: MediaFrame, max: nat, i: nat): Bytes
    requires Cuttable(frame, max) && i < FragmentCount(|frame.payload|, max)
  {
    FragmentRoundTrip(HeaderOf(frame, max, i), []);
    EncodeFragment(HeaderOf(frame, max, i)).value + FragmentOf(frame.payload, max, i)
  }

  lemma BlockDataLength(frame: MediaFrame, max: nat, i: nat)
    requires Cuttable(frame, max) && i < FragmentCount(|frame.payload|, max)
    ensures |BlockData(frame, max, i)| == MEDIA_HEADER_LEN + |FragmentOf(frame.payload, max, i)|
    ensures |BlockData(frame, max, i)| <= |BlockData(frame, max, 0)| <= MEDIA_HEADER_LEN + max
  {
    hide EncodeFragment, DecodeFragment;
    FragmentRoundTrip(HeaderOf(frame, max, i), []);
    FragmentRoundTrip(HeaderOf(frame, max, 0), []);
    FragmentLength(frame.payload, max, i);
    FragmentLength(frame.payload, max, 0);
  }

  // ----- encoding

  datatype EncodedFrame = EncodedFrame(
    sequence: u64, metadata: Metadata, priority: Priority, fragmentCount: u16, blocks: seq<MediaBlock>,
    datagrams: seq<Bytes>)

  datatype Parts = Parts(blocks: seq<MediaBlock>, datagrams: seq<Bytes>)

  function Geometry(e: Encoder, d: Decision): Encoder {
    e.(sourceSymbols := Max(d.sourceSymbols, 1), symbolSize := Max(d.symbolSize, 1))
  }

  function BlockRecord(blockId: u32, i: u16, k: u16, repair: u32, first: u64, count: u64, length: u64): MediaBlock {
    MediaBlock(blockId, i, k, repair, first, count, length)
  }

  /** Blocks `i` and on of a frame, the first of them starting at datagram `first`. */
  function EncodedFrom(code: Code, e: Encoder, frame: MediaFrame, d: Decision, i: nat, first: nat)
    : (Encoder, Result<Parts, MediaError>)
    requires code.Lawful() && d.Usable() && d.MaxFragment() > 0 && |frame.payload| <= U32_MAX
    requires i <= FragmentCount(|frame.payload|, d.MaxFragment()) <= U16_MAX && first <= i * ESI_LIMIT
    decreases FragmentCount(|frame.payload|, d.MaxFragment()) - i
  {
    var max := d.MaxFragment();
    if i == FragmentCount(|frame.payload|, max) then (e, Success(Parts([], [])))
    else
      match EncodeFragment(HeaderOf(frame, max, i))
      case Failure(error) => (e, Failure(error))
      case Success(header) =>
        var data := header + FragmentOf(frame.payload, max, i);
        var k := SourceSymbolCount(|data|, d.symbolSize);
        var (e', r) := EncodedBlock(code, Geometry(e, d), data, d.repair(k));
        match r
        case Failure(error) => (e', Failure(Fec(error)))
        case Success(datagrams) =>
          BlockFits(code, e, frame, d, i, first);
          var block := BlockRecord(e.blockId, i, k, d.repair(k), first, |datagrams|, |data|);
          match EncodedFrom(code, e', frame, d, i + 1, first + |datagrams|)
          case (e'', Failure(error)) => (e'', Failure(error))
          case (e'', Success(rest)) => (e'', Success(Parts([block] + rest.blocks, datagrams + rest.datagrams)))
  }

  /** No counter leaves its machine width. */
  lemma BlockFits(code: Code, e: Encoder, frame: MediaFrame, d: Decision, i: nat, first: nat)
    requires code.Lawful() && d.Usable() && d.MaxFragment() > 0 && |frame.payload| <= U32_MAX
    requires i < FragmentCount(|frame.payload|, d.MaxFragment()) <= U16_MAX && first <= i * ESI_LIMIT
    requires EncodeFragment(HeaderOf(frame, d.MaxFragment(), i)).Success?
    requires var data := EncodeFragment(HeaderOf(frame, d.MaxFragment(), i)).value
                         + FragmentOf(frame.payload, d.MaxFragment(), i);
             EncodedBlock(code, Geometry(e, d), data, d.repair(SourceSymbolCount(|data|, d.symbolSize))).1.Success?
    ensures var data := EncodeFragment(HeaderOf(frame, d.MaxFragment(), i)).value
                        + FragmentOf(frame.payload, d.MaxFragment(), i);
            var k := SourceSymbolCount(|data|, d.symbolSize);
            var (e', r) := EncodedBlock(code, Geometry(e, d), data, d.repair(k));
            && |data| <= U32_MAX
            && |r.value| == k + d.repair(k) <= ESI_LIMIT
            && first + |r.value| <= (i + 1) * ESI_LIMIT <= U64_MAX
            && e' == Encoder(WrapAdd32(e.blockId, 1), Advance32(e.packetSequence, |r.value|), Max(d.sourceSymbols, 1),
                             Max(d.symbolSize, 1))
            && r.value == SymbolRun(code, BlockProfile(Geometry(e, d), |data|), data, e.packetSequence, 0, |r.value|)
            && BlockProfile(Geometry(e, d), |data|).Valid()
            && BlockProfile(Geometry(e, d), |data|).sourceSymbols == k
  {
    hide EncodeFragment, SymbolRun, Advance32, WrapAdd32, ValidateGeometry;
    var data := EncodeFragment(HeaderOf(frame, d.MaxFragment(), i)).value + FragmentOf(frame.payload, d.MaxFragment(), i);
    var profile := BlockProfile(Geometry(e, d), |data|);
    GeometryAccepted(profile.transferLength, profile.sourceSymbols, profile.symbolSize);
  }

  /** `encode_frame` */
  function EncodedFrameOf(code: Code, e: Encoder, frame: MediaFrame, d: Decision)
    : (Encoder, Result<EncodedFrame, MediaError>)
    requires code.Lawful() && d.Usable()
  {
    var max := d.MaxFragment();
    if max == 0 then (e, Failure(BlockTooSmall(d.MaxBlock(), MEDIA_HEADER_LEN)))
    else if FragmentCount(|frame.payload|, max) > U16_MAX then
      (e, Failure(MediaError.TooManyFragments(FragmentCount(|frame.payload|, max))))
    else if |frame.payload| > U32_MAX then (e, Failure(AccessUnitTooLarge(|frame.payload|)))
    else
      match EncodedFrom(code, e, frame, d, 0, 0)
      case (e', Failure(error)) => (e', Failure(error))
      case (e', Success(parts)) =>
        (e', Success(EncodedFrame(frame.metadata.sequence, frame.metadata, PriorityOf(frame.metadata),
                                  FragmentCount(|frame.payload|, max), parts.blocks, parts.datagrams)))
  }

  type Outcome = (Encoder, Result<Parts, MediaError>)

  /** The whole outcome is what is done so far, then the rest. */
  ghost predicate Continues(all: Outcome, blocks: seq<MediaBlock>, datagrams: seq<Bytes>, rest: Outcome) {
    && all.0 == rest.0
    && match rest.1
       case Failure(error) => all.1 == Failure(error)
       case Success(parts) => all.1 == Success(Parts(blocks + parts.blocks, datagrams + parts.datagrams))
  }

  /** The outcome of block `i` followed by those after it. */
  ghost predicate Leads(from: Outcome, block: MediaBlock, datagrams: seq<Bytes>, rest: Outcome) {
    && from.0 == rest.0
    && match rest.1
       case Failure(error) => from.1 == Failure(error)
       case Success(parts) => from.1 == Success(Parts([block] + parts.blocks, datagrams + parts.datagrams))
  }

  lemma ContinuesOn(all: Outcome, blocks: seq<MediaBlock>, datagrams: seq<Bytes>, from: Outcome, block: MediaBlock,
                    more: seq<Bytes>, rest: Outcome)
    requires Continues(all, blocks, datagrams, from) && Leads(from, block, more, rest)
    ensures Continues(all, blocks + [block], datagrams + more, rest)
  {
    if rest.1.Success? {
      var parts := rest.1.value;
      assert blocks + ([block] + parts.blocks) == blocks + [block] + parts.blocks;
      assert datagrams + (more + parts.datagrams) == datagrams + more + parts.datagrams;
    }
  }

  class MediaFecEncoder {
    const fec: DatagramFecEncoder

    constructor (code: Code)
      ensures fec.Abs() == Encoder(0, 0, 4, 1316) && fec.code == code && fresh(fec)
    {
      fec := new DatagramFecEncoder(code);
    }

    method EncodeFrame(frame: MediaFrame, d: Decision) returns (r: Result<EncodedFrame, MediaError>)
      requires fec.code.Lawful() && d.Usable()
      modifies fec
      ensures (fec.Abs(), r) == EncodedFrameOf(fec.code, old(fec.Abs()), frame, d)
    {
      hide EncodeFragment, EncodedBlock, EncodedFrom, Leads, Continues, PriorityOf, CeilDiv;
      if d.MaxBlock() <= MEDIA_HEADER_LEN {
        return Failure(BlockTooSmall(d.MaxBlock(), MEDIA_HEADER_LEN));
      }
      var max := d.MaxBlock() - MEDIA_HEADER_LEN;
      var count := Max(CeilDiv(|frame.payload|, max), 1);
      if count > U16_MAX {
        return Failure(MediaError.TooManyFragments(count));
      }
      if |frame.payload| > U32_MAX {
        return Failure(AccessUnitTooLarge(|frame.payload|));
      }
      ghost var all := EncodedFrom(fec.code, fec.Abs(), frame, d, 0, 0);
      var blocks, datagrams := [], [];
      ContinuesSelf(all);
      for i := 0 to count
        invariant |datagrams| <= i * ESI_LIMIT
        invariant Continues(all, blocks, datagrams, EncodedFrom(fec.code, fec.Abs(), frame, d, i, |datagrams|))
      {
        ghost var from := EncodedFrom(fec.code, fec.Abs(), frame, d, i, |datagrams|);
        var encoded := EncodeFragmentBlock(frame, d, i, |datagrams|);
        if encoded.Failure? {
          FailedPart(all, blocks, datagrams, from);
          return Failure(encoded.error);
        }
        var (block, more) := encoded.value;
        ContinuesOn(all, blocks, datagrams, from, block, more,
                    EncodedFrom(fec.code, fec.Abs(), frame, d, i + 1, |datagrams| + |more|));
        blocks := blocks + [block];
        datagrams := datagrams + more;
      }
      ContinuesDone(fec.code, fec.Abs(), frame, d, all, blocks, datagrams);
      r := Success(EncodedFrame(frame.metadata.sequence, frame.metadata, PriorityOf(frame.metadata), count, blocks, datagrams));
    }

    method EncodeFragmentBlock(frame: MediaFrame, d: Decision, i: nat, first: nat)
      returns (r: Result<(MediaBlock, seq<Bytes>), MediaError>)
      requires fec.code.Lawful() && d.Usable() && d.MaxFragment() > 0 && |frame.payload| <= U32_MAX
      requires i < FragmentCount(|frame.payload|, d.MaxFragment()) <= U16_MAX && first <= i * ESI_LIMIT
      modifies fec
      ensures r.Failure? ==>
                EncodedFrom(fec.code, old(fec.Abs()), frame, d, i, first) == (fec.Abs(), Failure(r.error))
      ensures r.Success? ==>
                && first + |r.value.1| <= (i + 1) * ESI_LIMIT
                && Leads(EncodedFrom(fec.code, old(fec.Abs()), frame, d, i, first), r.value.0, r.value.1,
                         EncodedFrom(fec.code, fec.Abs(), frame, d, i + 1, first + |r.value.1|))
    {
      hide EncodeFragment, EncodedBlock;
      var max := d.MaxFragment();
      var header := EncodeFragment(HeaderOf(frame, max, i));
      if header.Failure? {
        return Failure(header.error);
      }
      var data := header.value + FragmentOf(frame.payload, max, i);
      var k := SourceSymbolCount(|data|, d.symbolSize);
      fec.SetGeometry(d.sourceSymbols, d.symbolSize);
      var blockId := fec.blockId;
      var encoded := fec.EncodeBlock(data, d.repair(k));
      if encoded.Failure? {
        return Failure(Fec(encoded.error));
      }
      BlockFits(fec.code, old(fec.Abs()), frame, d, i, first);
      r := Success((BlockRecord(blockId, i, k, d.repair(k), first, |encoded.value|, |data|), encoded.value));
    }
  }

  lemma ContinuesSelf(all: Outcome)
    ensures Continues(all, [], [], all)
  {
    if all.1.Success? {
      assert [] + all.1.value.blocks == all.1.value.blocks && [] + all.1.value.datagrams == all.1.value.datagrams;
    }
  }

  lemma ContinuesDone(code: Code, e: Encoder, frame: MediaFrame, d: Decision, all: Outcome, blocks: seq<MediaBlock>,
                      datagrams: seq<Bytes>)
    requires code.Lawful() && d.Usable() && d.MaxFragment() > 0 && |frame.payload| <= U32_MAX
    requires var count := FragmentCount(|frame.payload|, d.MaxFragment());
             && count <= U16_MAX && |datagrams| <= count * ESI_LIMIT
             && Continues(all, blocks, datagrams, EncodedFrom(code, e, frame, d, count, |datagrams|))
    ensures all == (e, Success(Parts(blocks, datagrams)))
  {
    assert blocks + [] == blocks && datagrams + [] == datagrams;
  }

  lemma FailedPart(all: Outcome, blocks: seq<MediaBlock>, datagrams: seq<Bytes>, from: Outcome)
    requires Continues(all, blocks, datagrams, from) && from.1.Failure?
    ensures all == from
  {
  }

  // ----- what an encoded frame is

  /** The true object of block `i` and its symbol size. */
  ghost function FragmentSource(frame: MediaFrame, d: Decision, i: nat): Source
    requires Cuttable(frame, d.MaxFragment()) && i < FragmentCount(|frame.payload|, d.MaxFragment())
  {
    Source(BlockData(frame, d.MaxFragment(), i), Max(d.symbolSize, 1))
  }

  ghost predicate CarriesSymbol(code: Code, source: Source, blockId: u32, esi: nat, datagram: Bytes) {
    && Parse(datagram).Success?
    && var arrival := Parse(datagram).value;
    && GenuineArrival(code, source, arrival)
    && arrival.header.blockId == blockId
    && arrival.packet.esi == esi
  }

  /** The block carries fragment `i`: its record is right and its datagrams are its symbols in order. */
  ghost predicate CarriesFragment(code: Code, frame: MediaFrame, d: Decision, i: nat, blockId: u32, block: MediaBlock,
                                  datagrams: seq<Bytes>)
    requires Cuttable(frame, d.MaxFragment()) && i < FragmentCount(|frame.payload|, d.MaxFragment())
  {
    var source := FragmentSource(frame, d, i);
    && source.Valid()
    && block.fragmentIndex == i && block.blockId == blockId && block.payloadLen == |source.data|
    && block.sourceSymbols == source.SourceSymbols() && block.repairSymbols == d.repair(block.sourceSymbols)
    && |datagrams| == block.datagramCount == block.sourceSymbols + block.repairSymbols
    && forall k | 0 <= k < |datagrams| :: CarriesSymbol(code, source, blockId, k, datagrams[k])
  }

  /** Blocks from `i` on, their datagrams starting at `first`. */
  ghost predicate CarryFrom(code: Code, frame: MediaFrame, d: Decision, i: nat, first: nat, blockId: u32, parts: Parts)
    requires Cuttable(frame, d.MaxFragment())
    decreases |parts.blocks|
  {
    if parts.blocks == [] then i == FragmentCount(|frame.payload|, d.MaxFragment()) && parts.datagrams == []
    else
      var block := parts.blocks[0];
      && i < FragmentCount(|frame.payload|, d.MaxFragment())
      && block.datagramCount <= |parts.datagrams|
      && block.firstDatagram == first
      && CarriesFragment(code, frame, d, i, blockId, block, parts.datagrams[..block.datagramCount])
      && CarryFrom(code, frame, d, i + 1, first + block.datagramCount, WrapAdd32(blockId, 1),
                   Parts(parts.blocks[1..], parts.datagrams[block.datagramCount..]))
  }

  lemma RunCarries(code: Code, profile: Profile, data: Bytes, packetSequence: u32, count: nat, k: nat)
    requires code.Lawful() && Describes(profile, data) && k < count <= ESI_LIMIT
    ensures CarriesSymbol(code, Source(data, profile.symbolSize), profile.blockId, k,
                          SymbolRun(code, profile, data, packetSequence, 0, count)[k])
  {
    hide SymbolDatagram, RunDatagram, Parse, GenuineArrival, Advance32;
    RunDatagramIs(code, profile, data, packetSequence, 0, k);
    SymbolDatagramParses(code, profile, data, Advance32(packetSequence, k), k);
  }

  /** The object of a block fits its geometry exactly when it has at most 56403 symbols. */
  predicate FewSymbols(length: nat, d: Decision) {
    CeilDiv(length, Max(d.symbolSize, 1)) <= MAX_SOURCE_SYMBOLS_PER_BLOCK
  }

  lemma FewerSymbols(a: nat, b: nat, d: Decision)
    requires a <= b && FewSymbols(b, d)
    ensures FewSymbols(a, d)
  {
    var t := Max(d.symbolSize, 1);
    CeilDivCovers(b, t);
    CeilDivAtMost(a, t, CeilDiv(b, t));
  }

  /** What the encoder makes of one block object: it is refused exactly for too many symbols. */
  lemma BlockOutcome(code: Code, e: Encoder, d: Decision, data: Bytes)
    requires code.Lawful() && d.Usable() && 0 < |data| <= Min(d.MaxBlock(), U32_MAX)
    ensures var k := SourceSymbolCount(|data|, d.symbolSize);
            var (e', r) := EncodedBlock(code, Geometry(e, d), data, d.repair(k));
            var profile := BlockProfile(Geometry(e, d), |data|);
            if FewSymbols(|data|, d) then
              && profile.Valid() && profile.sourceSymbols == k == CeilDiv(|data|, Max(d.symbolSize, 1))
              && r == Success(SymbolRun(code, profile, data, e.packetSequence, 0, k + d.repair(k)))
            else r.Failure?
  {
    hide SymbolRun, Advance32, WrapAdd32, ValidateGeometry;
    var profile := BlockProfile(Geometry(e, d), |data|);
    GeometryAccepted(profile.transferLength, profile.sourceSymbols, profile.symbolSize);
    CeilDivAtMost(|data|, Max(d.symbolSize, 1), Max(d.sourceSymbols, 1));
  }

  lemma BlockCarries(code: Code, e: Encoder, frame: MediaFrame, d: Decision, i: nat)
    requires code.Lawful() && d.Usable() && Cuttable(frame, d.MaxFragment())
    requires i < FragmentCount(|frame.payload|, d.MaxFragment())
    ensures EncodeFragment(HeaderOf(frame, d.MaxFragment(), i)).Success?
    ensures var data := BlockData(frame, d.MaxFragment(), i);
            var k := SourceSymbolCount(|data|, d.symbolSize);
            var (e', r) := EncodedBlock(code, Geometry(e, d), data, d.repair(k));
            && |data| <= U32_MAX && (r.Success? <==> FewSymbols(|data|, d))
            && (r.Success? ==>
                  forall first: u64 | |r.value| <= U64_MAX ::
                    CarriesFragment(code, frame, d, i, e.blockId,
                                    BlockRecord(e.blockId, i, k, d.repair(k), first, |r.value|, |data|), r.value))
  {
    hide EncodeFragment, DecodeFragment, EncodedBlock, Parse, GenuineArrival, CarriesSymbol, SymbolRun, CeilDiv,
         FewSymbols, BlockData;
    var max := d.MaxFragment();
    FragmentRoundTrip(HeaderOf(frame, max, i), []);
    BlockDataLength(frame, max, i);
    var data := BlockData(frame, max, i);
    BlockLengthFits(frame, d, i);
    BlockOutcome(code, e, d, data);
    var k := SourceSymbolCount(|data|, d.symbolSize);
    var r := EncodedBlock(code, Geometry(e, d), data, d.repair(k)).1;
    if r.Success? {
      var profile := BlockProfile(Geometry(e, d), |data|);
      forall j | 0 <= j < |r.value|
        ensures CarriesSymbol(code, FragmentSource(frame, d, i), e.blockId, j, r.value[j])
      {
        RunCarries(code, profile, data, e.packetSequence, |r.value|, j);
      }
    }
  }

  lemma BlockLengthFits(frame: MediaFrame, d: Decision, i: nat)
    requires Cuttable(frame, d.MaxFragment()) && i < FragmentCount(|frame.payload|, d.MaxFragment())
    ensures 0 < |BlockData(frame, d.MaxFragment(), i)| <= Min(d.MaxBlock(), U32_MAX)
  {
    hide BlockData, CeilDiv;
    BlockDataLength(frame, d.MaxFragment(), i);
    MulAtMost(Max(d.sourceSymbols, 1), U16_MAX, Max(d.symbolSize, 1));
  }

  lemma {:induction false} EncodedFromCarries(code: Code, e: Encoder, frame: MediaFrame, d: Decision, i: nat, first: nat)
    requires code.Lawful() && d.Usable() && Cuttable(frame, d.MaxFragment())
    requires i <= FragmentCount(|frame.payload|, d.MaxFragment()) && first <= i * ESI_LIMIT
    ensures var (_, r) := EncodedFrom(code, e, frame, d, i, first);
            && (i < FragmentCount(|frame.payload|, d.MaxFragment()) ==>
                  (r.Success? ==> FewSymbols(|BlockData(frame, d.MaxFragment(), i)|, d))
                  && (FewSymbols(|BlockData(frame, d.MaxFragment(), 0)|, d) ==> r.Success?))
            && (i == FragmentCount(|frame.payload|, d.MaxFragment()) ==> r.Success?)
            && (r.Success? ==> CarryFrom(code, frame, d, i, first, e.blockId, r.value))
    decreases FragmentCount(|frame.payload|, d.MaxFragment()) - i
  {
    hide EncodeFragment, EncodedBlock, SymbolRun, CarriesFragment, FewSymbols, Advance32, WrapAdd32, CeilDiv;
    var max := d.MaxFragment();
    if i < FragmentCount(|frame.payload|, max) {
      BlockCarries(code, e, frame, d, i);
      BlockDataLength(frame, max, i);
      var data := BlockData(frame, max, i);
      if FewSymbols(|BlockData(frame, max, 0)|, d) {
        FewerSymbols(|data|, |BlockData(frame, max, 0)|, d);
      }
      var k := SourceSymbolCount(|data|, d.symbolSize);
      var (e', r) := EncodedBlock(code, Geometry(e, d), data, d.repair(k));
      if r.Success? {
        BlockFits(code, e, frame, d, i, first);
        EncodedFromCarries(code, e', frame, d, i + 1, first + |r.value|);
        var rest := EncodedFrom(code, e', frame, d, i + 1, first + |r.value|).1;
        if rest.Success? {
          var parts := EncodedFrom(code, e, frame, d, i, first).1.value;
          assert parts.blocks[1..] == rest.value.blocks;
          assert parts.datagrams[..|r.value|] == r.value && parts.datagrams[|r.value|..] == rest.value.datagrams;
        }
      }
    }
  }

  /** Blocks carried in order are laid out in order, and cover all datagrams. */
  lemma {:induction false} CarriedIsLaidOut(code: Code, frame: MediaFrame, d: Decision, i: nat, first: nat, blockId: u32,
                                            parts: Parts)
    requires Cuttable(frame, d.MaxFragment()) && CarryFrom(code, frame, d, i, first, blockId, parts)
    ensures LaidOut(parts.blocks, first) && Total(parts.blocks) == |parts.datagrams|
    decreases |parts.blocks|
  {
    hide CarriesSymbol, WrapAdd32, BlockData;
    if parts.blocks != [] {
      var block := parts.blocks[0];
      CarriedIsLaidOut(code, frame, d, i + 1, first + block.datagramCount, WrapAdd32(blockId, 1),
                       Parts(parts.blocks[1..], parts.datagrams[block.datagramCount..]));
    }
  }

  /** Datagram `k` of block `j`, found through the block's record. */
  lemma {:induction false} CarriedAt(code: Code, frame: MediaFrame, d: Decision, i: nat, first: nat, blockId: u32, parts: Parts,
                                     j: nat)
    requires Cuttable(frame, d.MaxFragment()) && CarryFrom(code, frame, d, i, first, blockId, parts)
    requires j < |parts.blocks|
    ensures i + j < FragmentCount(|frame.payload|, d.MaxFragment()) == i + |parts.blocks|
    ensures var block := parts.blocks[j];
            && first <= block.firstDatagram <= block.firstDatagram + block.datagramCount <= first + |parts.datagrams|
            && CarriesFragment(code, frame, d, i + j, Advance32(blockId, j), block,
                               parts.datagrams[block.firstDatagram - first..block.firstDatagram - first + block.datagramCount])
    decreases j
  {
    hide CarriesFragment, WrapAdd32, Advance32, FragmentCount;
    var count := parts.blocks[0].datagramCount;
    var rest := Parts(parts.blocks[1..], parts.datagrams[count..]);
    Advance32Steps(blockId, 0, 1);
    if j == 0 {
      CarriedCount(code, frame, d, i, first, blockId, parts);
    } else {
      CarriedAt(code, frame, d, i + 1, first + count, WrapAdd32(blockId, 1), rest, j - 1);
      Advance32Steps(blockId, 1, j - 1);
      var block := parts.blocks[j];
      var from := block.firstDatagram - first - count;
      assert rest.datagrams[from..from + block.datagramCount]
          == parts.datagrams[from + count..from + count + block.datagramCount];
    }
  }

  lemma {:induction false} CarriedCount(code: Code, frame: MediaFrame, d: Decision, i: nat, first: nat, blockId: u32, parts: Parts)
    requires Cuttable(frame, d.MaxFragment()) && CarryFrom(code, frame, d, i, first, blockId, parts)
    ensures i + |parts.blocks| == FragmentCount(|frame.payload|, d.MaxFragment())
    decreases |parts.blocks|
  {
    hide CarriesFragment, WrapAdd32, FragmentCount;
    if parts.blocks != [] {
      var count := parts.blocks[0].datagramCount;
      CarriedCount(code, frame, d, i + 1, first + count, WrapAdd32(blockId, 1),
                   Parts(parts.blocks[1..], parts.datagrams[count..]));
    }
  }

  /** Exactly the frames `encode_frame` accepts under a decision. */
  ghost predicate Encodable(frame: MediaFrame, d: Decision) {
    Cuttable(frame, d.MaxFragment()) && FewSymbols(|BlockData(frame, d.MaxFragment(), 0)|, d)
  }

  /**
   A frame is encoded exactly when it can be cut, its metadata is compact and its first, longest
   block has at most 56403 symbols. The blocks then partition the datagrams in order, one per
   fragment, under consecutive block ids, and the datagrams of each are the symbols of header and
   fragment: first all source symbols, then the repair symbols.
   */
  lemma EncodedFrameIs(code: Code, e: Encoder, frame: MediaFrame, d: Decision)
    requires code.Lawful() && d.Usable()
    ensures var (_, r) := EncodedFrameOf(code, e, frame, d);
            && (r.Success? <==> Encodable(frame, d))
            && (r.Success? ==>
                  && r.value.metadata == frame.metadata && r.value.sequence == frame.metadata.sequence
                  && IsPriority(frame.metadata, r.value.priority)
                  && |r.value.blocks| == FragmentCount(|frame.payload|, d.MaxFragment()) == r.value.fragmentCount
                  && LaidOut(r.value.blocks, 0) && Total(r.value.blocks) == |r.value.datagrams|
                  && forall j | 0 <= j < |r.value.blocks| ::
                       var block := r.value.blocks[j];
                       && block.firstDatagram + block.datagramCount <= |r.value.datagrams|
                       && CarriesFragment(code, frame, d, j, Advance32(e.blockId, j), block,
                                          r.value.datagrams[block.firstDatagram..block.firstDatagram + block.datagramCount]))
  {
    hide EncodedFrom, EncodeFragment, DecodeFragment, CarriesFragment, FewSymbols, Advance32, CarryFrom, PriorityOf, CeilDiv,
         IsPriority;
    var max := d.MaxFragment();
    PriorityIs(frame.metadata);
    if max > 0 && FragmentCount(|frame.payload|, max) <= U16_MAX && |frame.payload| <= U32_MAX {
      if Compact(frame.metadata) {
        EncodedFromCarries(code, e, frame, d, 0, 0);
        if EncodedFrom(code, e, frame, d, 0, 0).1.Success? {
          var parts := EncodedFrom(code, e, frame, d, 0, 0).1.value;
          CarriedIsLaidOut(code, frame, d, 0, 0, e.blockId, parts);
          CarriedCount(code, frame, d, 0, 0, e.blockId, parts);
          forall j | 0 <= j < |parts.blocks|
            ensures parts.blocks[j].firstDatagram + parts.blocks[j].datagramCount <= |parts.datagrams|
            ensures CarriesFragment(code, frame, d, j, Advance32(e.blockId, j), parts.blocks[j],
                                    parts.datagrams[parts.blocks[j].firstDatagram
                                                    ..parts.blocks[j].firstDatagram + parts.blocks[j].datagramCount])
          {
            CarriedAt(code, frame, d, 0, 0, e.blockId, parts, j);
          }
        }
      } else {
        NotCompactFails(code, e, frame, d);
      }
    }
  }

  lemma NotCompactFails(code: Code, e: Encoder, frame: MediaFrame, d: Decision)
    requires code.Lawful() && d.Usable() && d.MaxFragment() > 0 && |frame.payload| <= U32_MAX
    requires FragmentCount(|frame.payload|, d.MaxFragment()) <= U16_MAX && !Compact(frame.metadata)
    ensures EncodedFrom(code, e, frame, d, 0, 0).1.Failure?
  {
    hide EncodeFragment, DecodeFragment, EncodedBlock;
    FragmentRoundTrip(HeaderOf(frame, d.MaxFragment(), 0), []);
  }

  /** Datagram `k` of block `j` of an encoded frame. */
  lemma EncodedSymbol(code: Code, e: Encoder, frame: MediaFrame, d: Decision, j: nat, k: nat)
    requires code.Lawful() && d.Usable() && EncodedFrameOf(code, e, frame, d).1.Success?
    requires var blocks := EncodedFrameOf(code, e, frame, d).1.value.blocks; j < |blocks| && k < blocks[j].datagramCount
    ensures Cuttable(frame, d.MaxFragment()) && j < FragmentCount(|frame.payload|, d.MaxFragment())
    ensures var encoded := EncodedFrameOf(code, e, frame, d).1.value;
            var block := encoded.blocks[j];
            && block.firstDatagram + k < |encoded.datagrams|
            && CarriesSymbol(code, FragmentSource(frame, d, j), block.blockId, k, encoded.datagrams[block.firstDatagram + k])
  {
    hide EncodedFrameOf, CarriesSymbol, FragmentSource, Advance32, LaidOut, Total, FewSymbols, FragmentCount, Compact;
    EncodedFrameIs(code, e, frame, d);
    var encoded := EncodedFrameOf(code, e, frame, d).1.value;
    var block := encoded.blocks[j];
    var own := encoded.datagrams[block.firstDatagram..block.firstDatagram + block.datagramCount];
    assert CarriesFragment(code, frame, d, j, Advance32(e.blockId, j), block, own);
    assert own[k] == encoded.datagrams[block.firstDatagram + k];
  }

  // ----- what a frame costs the encoder

  /** Symbol size in force; zero counts as one. */
  function SizeOf(d: Decision): nat {
    if d.symbolSize == 0 then 1 else d.symbolSize
  }

  /** Bytes of a frame in one block: what the block's symbols hold, less the 44 of the header. */
  lemma FragmentSize(d: Decision)
    ensures var room := (if d.sourceSymbols == 0 then 1 else d.sourceSymbols) * SizeOf(d);
            d.MaxBlock() == room && d.MaxFragment() == if room < 44 then 0 else room - 44
  {
  }

  /** Datagram `n` of what the encoder emits from here on: its length and its packet sequence number. */
  ghost predicate IsEmitted(e: Encoder, d: Decision, n: nat, datagram: Bytes) {
    && |datagram| == 32 + 4 + SizeOf(d)
    && Parse(datagram).Success?
    && Parse(datagram).value.header.packetSequence == (e.packetSequence + n) % 0x1_0000_0000
  }

  /** The encoder after `blocks` blocks of `datagrams` datagrams in all. */
  ghost predicate MovedOn(e: Encoder, d: Decision, blocks: nat, datagrams: nat, e': Encoder) {
    && e'.blockId == (e.blockId + blocks) % 0x1_0000_0000
    && e'.packetSequence == (e.packetSequence + datagrams) % 0x1_0000_0000
    && (if blocks == 0 then e'.sourceSymbols == e.sourceSymbols && e'.symbolSize == e.symbolSize
        else e'.sourceSymbols == (if d.sourceSymbols == 0 then 1 else d.sourceSymbols) && e'.symbolSize == SizeOf(d))
  }

  lemma RunEmits(code: Code, profile: Profile, data: Bytes, e: Encoder, d: Decision, count: nat, n: nat)
    requires code.Lawful() && Describes(profile, data) && profile.symbolSize == SizeOf(d) && n < count <= ESI_LIMIT
    ensures IsEmitted(e, d, n, SymbolRun(code, profile, data, e.packetSequence, 0, count)[n])
  {
    hide SymbolDatagram, RunDatagram, Parse, GenuineArrival;
    RunDatagramIs(code, profile, data, e.packetSequence, 0, n);
    SymbolDatagramParses(code, profile, data, Advance32(e.packetSequence, n), n);
  }

  lemma MovesAdd(e: Encoder, d: Decision, e': Encoder, e'': Encoder, first: nat, blocks: nat, rest: nat)
    requires MovedOn(e, d, 1, first, e') && MovedOn(e', d, blocks, rest, e'')
    ensures MovedOn(e, d, 1 + blocks, first + rest, e'')
  {
  }

  lemma {:induction false} EncodedFromMoves(code: Code, e: Encoder, frame: MediaFrame, d: Decision, i: nat, first: nat)
    requires code.Lawful() && d.Usable() && d.MaxFragment() > 0 && |frame.payload| <= U32_MAX
    requires i <= FragmentCount(|frame.payload|, d.MaxFragment()) <= U16_MAX && first <= i * ESI_LIMIT
    requires EncodedFrom(code, e, frame, d, i, first).1.Success?
    ensures var (e', r) := EncodedFrom(code, e, frame, d, i, first);
            && MovedOn(e, d, |r.value.blocks|, |r.value.datagrams|, e')
            && forall n | 0 <= n < |r.value.datagrams| :: IsEmitted(e, d, n, r.value.datagrams[n])
    decreases FragmentCount(|frame.payload|, d.MaxFragment()) - i
  {
    hide EncodeFragment, EncodedBlock, SymbolRun, IsEmitted, FragmentCount, ValidGeometry, MovedOn;
    var max := d.MaxFragment();
    if i < FragmentCount(|frame.payload|, max) {
      var data := EncodeFragment(HeaderOf(frame, max, i)).value + FragmentOf(frame.payload, max, i);
      var k := SourceSymbolCount(|data|, d.symbolSize);
      var (e', r) := EncodedBlock(code, Geometry(e, d), data, d.repair(k));
      BlockFits(code, e, frame, d, i, first);
      EncodedFromMoves(code, e', frame, d, i + 1, first + |r.value|);
      var (e'', rest) := EncodedFrom(code, e', frame, d, i + 1, first + |r.value|);
      assert MovedOn(e, d, 1, |r.value|, e') by { OneBlock(e, d, |r.value|, e'); }
      MovesAdd(e, d, e', e'', |r.value|, |rest.value.blocks|, |rest.value.datagrams|);
      var all := r.value + rest.value.datagrams;
      forall n | 0 <= n < |all| ensures IsEmitted(e, d, n, all[n]) {
        if n < |r.value| {
          RunEmits(code, BlockProfile(Geometry(e, d), |data|), data, e, d, |r.value|, n);
        } else {
          EmittedLater(e, d, e', |r.value|, n - |r.value|, all[n]);
        }
      }
    } else {
      assert MovedOn(e, d, 0, 0, e) by { NoBlock(e, d); }
    }
  }

  lemma NoBlock(e: Encoder, d: Decision)
    ensures MovedOn(e, d, 0, 0, e)
  {
  }

  lemma OneBlock(e: Encoder, d: Decision, count: nat, e': Encoder)
    requires e' == Encoder(WrapAdd32(e.blockId, 1), Advance32(e.packetSequence, count), Max(d.sourceSymbols, 1),
                           Max(d.symbolSize, 1))
    ensures MovedOn(e, d, 1, count, e')
  {
  }

  lemma EmittedLater(e: Encoder, d: Decision, e': Encoder, first: nat, n: nat, datagram: Bytes)
    requires e'.packetSequence == (e.packetSequence + first) % 0x1_0000_0000 && IsEmitted(e', d, n, datagram)
    ensures IsEmitted(e, d, first + n, datagram)
  {
    hide Parse;
  }

  /**
   An encoded frame moves the encoder on by its blocks and datagrams, which carry consecutive packet
   sequence numbers and are all of one length.
   */
  lemma EncodedFrameMoves(code: Code, e: Encoder, frame: MediaFrame, d: Decision)
    requires code.Lawful() && d.Usable() && EncodedFrameOf(code, e, frame, d).1.Success?
    ensures var (e', r) := EncodedFrameOf(code, e, frame, d);
            && 0 < |r.value.blocks|
            && MovedOn(e, d, |r.value.blocks|, |r.value.datagrams|, e')
            && forall n | 0 <= n < |r.value.datagrams| :: IsEmitted(e, d, n, r.value.datagrams[n])
  {
    hide EncodedFrom, IsEmitted, MovedOn, CarriesFragment, LaidOut, Total, FewSymbols, Compact, PriorityOf;
    EncodedFromMoves(code, e, frame, d, 0, 0);
    EncodedFrameIs(code, e, frame, d);
  }

  /**
   A refused frame costs no block id and no sequence number, and says why: a block too small for the header,
   too many fragments, a payload beyond 32 bits, metadata that does not fit, or too many symbols in the
   first block, in this order.
   */
  lemma RefusedFrame(code: Code, e: Encoder, frame: MediaFrame, d: Decision)
    requires code.Lawful() && d.Usable() && EncodedFrameOf(code, e, frame, d).1.Failure?
    ensures var (e', r) := EncodedFrameOf(code, e, frame, d);
            var (room, max) := (d.MaxBlock(), d.MaxFragment());
            && e'.blockId == e.blockId && e'.packetSequence == e.packetSequence
            && (if room <= 44 then r.error == BlockTooSmall(room, 44)
                else if FragmentCount(|frame.payload|, max) > 65_535 then
                  r.error == MediaError.TooManyFragments(FragmentCount(|frame.payload|, max))
                else if |frame.payload| > 0xFFFF_FFFF then r.error == AccessUnitTooLarge(|frame.payload|)
                else if !Compact(frame.metadata) then
                  r.error.FlagsTooLarge? || r.error.DurationTooLarge? || r.error.DtsDeltaOutOfRange?
                else r.error.Fec?)
  {
    hide EncodeFragment, DecodeFragment, EncodedBlock, CarriesFragment, FewSymbols, Compact;
    var max := d.MaxFragment();
    if max > 0 && FragmentCount(|frame.payload|, max) <= U16_MAX && |frame.payload| <= U32_MAX {
      FragmentRoundTrip(HeaderOf(frame, max, 0), []);
      FragmentWritten(HeaderOf(frame, max, 0));
      if Compact(frame.metadata) {
        FirstBlockRefused(code, e, frame, d);
      }
    }
  }

  lemma FirstBlockRefused(code: Code, e: Encoder, frame: MediaFrame, d: Decision)
    requires code.Lawful() && d.Usable() && Cuttable(frame, d.MaxFragment()) && EncodedFrameOf(code, e, frame, d).1.Failure?
    ensures var (e', r) := EncodedFrameOf(code, e, frame, d);
            e'.blockId == e.blockId && e'.packetSequence == e.packetSequence && r.error.Fec?
  {
    hide EncodeFragment, DecodeFragment, EncodedBlock, CarriesFragment, FewSymbols, BlockData, EncodedFrom, EncodedFrameOf,
         FragmentCount, HeaderOf, FragmentOf, LaidOut, Total, Compact, IsPriority;
    var max := d.MaxFragment();
    EncodedFrameIs(code, e, frame, d);
    AtLeastOne(frame, max);
    BlockCarries(code, e, frame, d, 0);
    BlockIsData(frame, d);
    BlockLengthFits(frame, d, 0);
    var data := BlockData(frame, max, 0);
    var k := SourceSymbolCount(|data|, d.symbolSize);
    EncodedBlockIs(code, Geometry(e, d), data, d.repair(k));
    FailsAtFirst(code, e, frame, d, data);
  }

  lemma AtLeastOne(frame: MediaFrame, max: nat)
    requires max > 0
    ensures 0 < FragmentCount(|frame.payload|, max)
  {
  }

  lemma FailsAtFirst(code: Code, e: Encoder, frame: MediaFrame, d: Decision, data: Bytes)
    requires code.Lawful() && d.Usable() && Cuttable(frame, d.MaxFragment())
    requires EncodeFragment(HeaderOf(frame, d.MaxFragment(), 0)).Success?
    requires data == EncodeFragment(HeaderOf(frame, d.MaxFragment(), 0)).value + FragmentOf(frame.payload, d.MaxFragment(), 0)
    requires EncodedBlock(code, Geometry(e, d), data, d.repair(SourceSymbolCount(|data|, d.symbolSize))).1.Failure?
    ensures var (e', r) := EncodedBlock(code, Geometry(e, d), data, d.repair(SourceSymbolCount(|data|, d.symbolSize)));
            EncodedFrameOf(code, e, frame, d) == (e', Failure(Fec(r.error)))
  {
    hide EncodeFragment, DecodeFragment, EncodedBlock, HeaderOf, FragmentOf, Compact;
  }

  lemma BlockIsData(frame: MediaFrame, d: Decision)
    requires Cuttable(frame, d.MaxFragment())
    ensures var max := d.MaxFragment();
            && EncodeFragment(HeaderOf(frame, max, 0)).Success?
            && BlockData(frame, max, 0) == EncodeFragment(HeaderOf(frame, max, 0)).value + FragmentOf(frame.payload, max, 0)
  {
    hide EncodeFragment, DecodeFragment;
    FragmentRoundTrip(HeaderOf(frame, d.MaxFragment(), 0), []);
  }

  /** Payload bytes from fragment `i` on. */
  function Left(length: nat, max: nat, i: nat): nat
    requires max > 0
  {
    if i * max < length then length - i * max else 0
  }

  lemma LeftSplits(payload: Bytes, max: nat, i: nat)
    requires max > 0 && i < FragmentCount(|payload|, max)
    ensures Left(|payload|, max, i) == |FragmentOf(payload, max, i)| + Left(|payload|, max, i + 1)
    ensures i + 1 == FragmentCount(|payload|, max) ==> Left(|payload|, max, i + 1) == 0
  {
    hide FragmentOf, FragmentCount;
    FragmentLength(payload, max, i);
    StartWithin(|payload|, max, i);
    CountCovers(|payload|, max);
    assert (i + 1) * max == i * max + max;
  }

  lemma CountCovers(length: nat, max: nat)
    requires max > 0
    ensures length <= FragmentCount(length, max) * max
  {
    CeilDivCovers(length, max);
  }

  lemma {:induction false} ProtectedFrom(code: Code, frame: MediaFrame, d: Decision, i: nat, first: nat, blockId: u32,
                                         parts: Parts)
    requires Cuttable(frame, d.MaxFragment()) && CarryFrom(code, frame, d, i, first, blockId, parts)
    ensures Sum(PROTECTED, parts.blocks) == 44 * |parts.blocks|
            + (if i < FragmentCount(|frame.payload|, d.MaxFragment()) then Left(|frame.payload|, d.MaxFragment(), i) else 0)
    decreases |parts.blocks|
  {
    hide CarriesSymbol, WrapAdd32, BlockData, FragmentCount, Left, FragmentOf, Compact;
    if parts.blocks != [] {
      var block := parts.blocks[0];
      ProtectedFrom(code, frame, d, i + 1, first + block.datagramCount, WrapAdd32(blockId, 1),
                    Parts(parts.blocks[1..], parts.datagrams[block.datagramCount..]));
      LeftSplits(frame.payload, d.MaxFragment(), i);
      BlockDataLength(frame, d.MaxFragment(), i);
    }
  }

  /**
   What the statistics of an encoded frame say: its blocks, sources and repairs together all datagrams, the
   payload and one header a block as protected bytes, the length of all datagrams as bytes on the wire, the
   repairs as what can be recovered, and the datagrams of the largest block.
   */
  lemma EncodedStats(code: Code, e: Encoder, frame: MediaFrame, d: Decision)
    requires code.Lawful() && d.Usable() && EncodedFrameOf(code, e, frame, d).1.Success?
    ensures var encoded := EncodedFrameOf(code, e, frame, d).1.value;
            var s := StatsOf(encoded.blocks, encoded.datagrams);
            && s.blockCount == |encoded.blocks| && s.wireDatagrams == |encoded.datagrams|
            && s.sourceDatagrams + s.repairDatagrams == |encoded.datagrams|
            && s.recoverableSourceDatagrams == s.repairDatagrams
            && s.protectedBytes == |frame.payload| + 44 * |encoded.blocks|
            && s.wireBytes == |encoded.datagrams| * (36 + SizeOf(d))
            && (forall b | b in encoded.blocks :: b.datagramCount <= s.maxBlockDatagrams)
            && exists b :: b in encoded.blocks && b.datagramCount == s.maxBlockDatagrams
  {
    hide CarriesFragment, FewSymbols, Compact, Sum, Largest, Left, MovedOn, IsPriority, EncodedFrom, FragmentCount, BlockData;
    EncodedFrameIs(code, e, frame, d);
    EncodedFrameMoves(code, e, frame, d);
    EncodedFromCarries(code, e, frame, d, 0, 0);
    var encoded := EncodedFrameOf(code, e, frame, d).1.value;
    AtLeastOne(frame, d.MaxFragment());
    ProtectedFrom(code, frame, d, 0, 0, e.blockId, Parts(encoded.blocks, encoded.datagrams));
    AllLeft(|frame.payload|, d.MaxFragment());
    StatsAddUp(encoded.blocks, 0);
    LargestIs(encoded.blocks);
    forall n | 0 <= n < |encoded.datagrams| ensures |encoded.datagrams[n]| == 36 + SizeOf(d) {
      assert IsEmitted(e, d, n, encoded.datagrams[n]);
    }
    SameLengths(encoded.datagrams, 36 + SizeOf(d));
  }

  lemma AllLeft(length: nat, max: nat)
    requires max > 0
    ensures Left(length, max, 0) == length
  {
  }
}
