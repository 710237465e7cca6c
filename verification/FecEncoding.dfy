/**
 The encoders of one datagram flow: whole blocks with consecutive packet sequence numbers, and
 on-demand repair symbols that continue a block's Encoding Symbol IDs.
 */
module FecEncoding {
  import opened Arithmetic
  import opened ByteCodec
  import opened Datagram
  import opened FecDecoding
  import opened MachineInts
  import opened RaptorQ
  import opened Wrappers

  const HARD_MAX_EXTRA_REPAIR_SYMBOLS := 4_096
  const HARD_MAX_REPAIR_SOURCE_BYTES := 16 * 1024 * 1024 + 256 * 1024
  const HARD_MAX_ADDITIONAL_REPAIR_BYTES := 16 * 1024 * 1024

  /** Everything that identifies a block on the wire. */
  datatype Profile = Profile(blockId: u32, transferLength: u32, sourceSymbols: u16, symbolSize: u16) {
    predicate Valid() {
      ValidGeometry(transferLength, sourceSymbols, symbolSize)
    }
  }

  /** `source_symbol_count` */
  function SourceSymbolCount(byteLength: nat, symbolSize: u16): u16 {
    if byteLength == 0 then 1 else Min(CeilDiv(byteLength, Max(symbolSize, 1)), U16_MAX)
  }

  /** `datagram_size_for_symbol_size` */
  function DatagramSize(symbolSize: u16): nat {
    HEADER_LEN + PACKET_HEADER_LEN + symbolSize
  }

  /** The datagram that carries symbol `esi` of a block. */
  function SymbolDatagram(code: Code, profile: Profile, data: Bytes, packetSequence: u32, esi: nat): Result<Bytes, FecError>
    requires esi < ESI_LIMIT
  {
    WrapPacket(profile.blockId, profile.transferLength, packetSequence, profile.sourceSymbols, profile.symbolSize,
               SerializePacket(0, esi, code.symbol(data, profile.symbolSize, esi)))
  }

  ghost predicate Describes(profile: Profile, data: Bytes) {
    profile.Valid() && |data| == profile.transferLength
  }

  /**
   Such a datagram always exists, has the size of its symbol plus 36 bytes, and parses to a genuine
   arrival of exactly this symbol.
   */
  lemma SymbolDatagramParses(code: Code, profile: Profile, data: Bytes, packetSequence: u32, esi: nat)
    requires code.Lawful() && Describes(profile, data) && esi < ESI_LIMIT
    ensures var d := SymbolDatagram(code, profile, data, packetSequence, esi);
            && d.Success?
            && |d.value| == 32 + 4 + profile.symbolSize
            && Parse(d.value).Success?
            && var arrival := Parse(d.value).value;
            && GenuineArrival(code, Source(data, profile.symbolSize), arrival)
            && arrival.packet.esi == esi
            && arrival.header.blockId == profile.blockId
            && arrival.header.packetSequence == packetSequence
            && arrival.header.packetFlags == 1 && arrival.header.payloadLen == 4 + profile.symbolSize
  {
    var symbol := code.symbol(data, profile.symbolSize, esi);
    assert code.LawfulSymbol(data, profile.symbolSize, esi);
    PacketRoundTrip(0, esi, symbol);
    WrapRoundTrip(profile.blockId, profile.transferLength, packetSequence, profile.sourceSymbols, profile.symbolSize,
                  SerializePacket(0, esi, symbol));
  }

  /** With a geometry the header refuses, the first symbol already fails. */
  lemma SymbolDatagramRefused(code: Code, profile: Profile, data: Bytes, packetSequence: u32, esi: nat)
    requires code.Lawful() && profile.symbolSize > 0 && esi < ESI_LIMIT
    requires ValidateGeometry(profile.transferLength, profile.sourceSymbols, profile.symbolSize).Failure?
    ensures SymbolDatagram(code, profile, data, packetSequence, esi)
            == Failure(ValidateGeometry(profile.transferLength, profile.sourceSymbols, profile.symbolSize).error)
  {
    assert code.LawfulSymbol(data, profile.symbolSize, esi);
  }

  // ----- whole blocks

  datatype Encoder = Encoder(blockId: u32, packetSequence: u32, sourceSymbols: u16, symbolSize: u16)

  function MaxPayloadLen(e: Encoder): nat {
    Max(e.sourceSymbols, 1) * Max(e.symbolSize, 1)
  }

  function BlockProfile(e: Encoder, length: u32): Profile {
    Profile(e.blockId, length, SourceSymbolCount(length, e.symbolSize), Max(e.symbolSize, 1))
  }

  /** Packet `k` of a run of symbols that starts at `first`, packet sequence counting up. */
  function RunDatagram(code: Code, profile: Profile, data: Bytes, packetSequence: u32, first: nat, k: nat): Bytes
    requires first + k < ESI_LIMIT
  {
    var datagram := SymbolDatagram(code, profile, data, Advance32(packetSequence, k), first + k);
    if datagram.Success? then datagram.value else []
  }

  lemma RunDatagramIs(code: Code, profile: Profile, data: Bytes, packetSequence: u32, first: nat, k: nat)
    requires code.Lawful() && Describes(profile, data) && first + k < ESI_LIMIT
    ensures SymbolDatagram(code, profile, data, Advance32(packetSequence, k), first + k)
            == Success(RunDatagram(code, profile, data, packetSequence, first, k))
  {
    hide SymbolDatagram, Parse, GenuineArrival;
    SymbolDatagramParses(code, profile, data, Advance32(packetSequence, k), first + k);
  }

  function SymbolRun(code: Code, profile: Profile, data: Bytes, packetSequence: u32, first: nat, count: nat)
    : (datagrams: seq<Bytes>)
    requires first + count <= ESI_LIMIT
    ensures |datagrams| == count
    ensures forall k | 0 <= k < count :: datagrams[k] == RunDatagram(code, profile, data, packetSequence, first, k)
  {
    seq(count, k requires 0 <= k < count => RunDatagram(code, profile, data, packetSequence, first, k))
  }

  /** `encode_block_with_repair_symbols` */
  function EncodedBlock(code: Code, e: Encoder, data: Bytes, repairSymbols: nat): (Encoder, Result<seq<Bytes>, FecError>)
    requires code.Lawful()
    requires SourceSymbolCount(|data|, e.symbolSize) + repairSymbols <= ESI_LIMIT
  {
    if |data| > U32_MAX then (e, Failure(PayloadTooLong(|data|)))
    else if |data| > MaxPayloadLen(e) then (e, Failure(PayloadTooLargeForBlock(|data|, MaxPayloadLen(e))))
    else
      var profile := BlockProfile(e, |data|);
      var geometry := ValidateGeometry(profile.transferLength, profile.sourceSymbols, profile.symbolSize);
      if geometry.Failure? then (e, Failure(geometry.error)) else
        GeometryAccepted(profile.transferLength, profile.sourceSymbols, profile.symbolSize);
        var count := profile.sourceSymbols + repairSymbols;
        (e.(blockId := WrapAdd32(e.blockId, 1), packetSequence := Advance32(e.packetSequence, count)),
         Success(SymbolRun(code, profile, data, e.packetSequence, 0, count)))
  }

  /** Bytes a block of the configured geometry holds; neither factor counts as less than one. */
  function Room(e: Encoder): nat {
    (if e.sourceSymbols == 0 then 1 else e.sourceSymbols) * (if e.symbolSize == 0 then 1 else e.symbolSize)
  }

  /** Datagram `k` of a block: symbol `k`, under the block's id and the `k`th packet sequence number. */
  ghost predicate IsBlockDatagram(code: Code, e: Encoder, data: Bytes, k: nat, datagram: Bytes) {
    && Parse(datagram).Success?
    && var arrival := Parse(datagram).value;
    && GenuineArrival(code, Source(data, if e.symbolSize == 0 then 1 else e.symbolSize), arrival)
    && arrival.header.blockId == e.blockId && arrival.packet.esi == k
    && arrival.header.packetSequence == (e.packetSequence + k) % 0x1_0000_0000
  }

  /**
   An object becomes a block exactly if it is not empty, fits the configured room and 32 bits, and takes at
   most 56,403 symbols. The block is its K source symbols and then the repair symbols; the encoder moves on
   by one block id and by as many sequence numbers. A refused object leaves the encoder as it was.
   */
  lemma EncodedBlockIs(code: Code, e: Encoder, data: Bytes, repairSymbols: nat)
    requires code.Lawful() && SourceSymbolCount(|data|, e.symbolSize) + repairSymbols <= ESI_LIMIT
    ensures var (e', r) := EncodedBlock(code, e, data, repairSymbols);
            var size := if e.symbolSize == 0 then 1 else e.symbolSize;
            && (r.Success? <==> 0 < |data| <= 0xFFFF_FFFF && |data| <= Room(e) && |data| <= 56_403 * size)
            && (r.Failure? ==> e' == e)
            && (|data| > 0xFFFF_FFFF ==> r == Failure(PayloadTooLong(|data|)))
            && (0xFFFF_FFFF >= |data| > Room(e) ==> r == Failure(PayloadTooLargeForBlock(|data|, Room(e))))
            && (r.Success? ==>
                  && Holds(|data|, |r.value| - repairSymbols, size)
                  && e'.blockId == (e.blockId + 1) % 0x1_0000_0000
                  && e'.packetSequence == (e.packetSequence + |r.value|) % 0x1_0000_0000
                  && e'.sourceSymbols == e.sourceSymbols && e'.symbolSize == e.symbolSize
                  && forall k | 0 <= k < |r.value| :: IsBlockDatagram(code, e, data, k, r.value[k]))
  {
    hide SymbolDatagram, ValidateGeometry, RunDatagram, Parse, GenuineArrival, IsBlockDatagram, Holds, ValidGeometry, CeilDiv;
    var size := Max(e.symbolSize, 1);
    if |data| <= 0xFFFF_FFFF && |data| <= Room(e) {
      var profile := BlockProfile(e, |data|);
      GeometryAccepted(profile.transferLength, profile.sourceSymbols, profile.symbolSize);
      BlockGeometry(|data|, size, profile.sourceSymbols);
      var r := EncodedBlock(code, e, data, repairSymbols).1;
      if r.Success? {
        forall k | 0 <= k < |r.value| ensures IsBlockDatagram(code, e, data, k, r.value[k]) {
          BlockDatagram(code, e, data, k, profile);
        }
      }
    }
  }

  lemma BlockGeometry(length: u32, size: u16, k: u16)
    requires size > 0 && k == SourceSymbolCount(length, size)
    ensures ValidGeometry(length, k, size) <==> 0 < length <= 56_403 * size
    ensures ValidGeometry(length, k, size) ==> Holds(length, k, size)
  {
    ValidGeometryHolds(length, k, size);
    if length > 0 {
      CeilDivCovers(length, size);
      var n := CeilDiv(length, size);
      if n <= 56_403 {
        MulAtMost(n, 56_403, size);
      } else {
        MulAtMost(56_403, n - 1, size);
      }
    }
  }

  lemma BlockDatagram(code: Code, e: Encoder, data: Bytes, k: nat, profile: Profile)
    requires code.Lawful() && |data| <= U32_MAX && profile == BlockProfile(e, |data|) && Describes(profile, data) && k < ESI_LIMIT
    ensures IsBlockDatagram(code, e, data, k, RunDatagram(code, profile, data, e.packetSequence, 0, k))
  {
    hide SymbolDatagram, RunDatagram, Parse, GenuineArrival, ValidGeometry;
    RunDatagramIs(code, profile, data, e.packetSequence, 0, k);
    SymbolDatagramParses(code, profile, data, Advance32(e.packetSequence, k), k);
  }

  class DatagramFecEncoder {
    const code: Code
    var blockId: u32
    var packetSequence: u32
    var sourceSymbols: u16
    var symbolSize: u16

    ghost function Abs(): Encoder
      reads this
    {
      Encoder(blockId, packetSequence, sourceSymbols, symbolSize)
    }

    constructor (code: Code)
      ensures Abs() == Encoder(0, 0, 4, 1316) && this.code == code
    {
      this.code := code;
      blockId, packetSequence, sourceSymbols, symbolSize := 0, 0, 4, 1316;
    }

    method SetGeometry(sourceSymbols: u16, symbolSize: u16)
      modifies `sourceSymbols, `symbolSize
      ensures this.sourceSymbols == Max(sourceSymbols, 1) && this.symbolSize == Max(symbolSize, 1)
    {
      this.sourceSymbols, this.symbolSize := Max(sourceSymbols, 1), Max(symbolSize, 1);
    }

    method EncodeBlock(data: Bytes, repairSymbols: nat) returns (r: Result<seq<Bytes>, FecError>)
      requires code.Lawful()
      requires SourceSymbolCount(|data|, symbolSize) + repairSymbols <= ESI_LIMIT
      modifies this
      ensures (Abs(), r) == EncodedBlock(code, old(Abs()), data, repairSymbols)
    {
      hide SymbolDatagram, ValidateGeometry, RunDatagram, Parse, GenuineArrival, Advance32, WrapAdd32;
      Advance32Steps(packetSequence, 0, 0);
      if |data| > U32_MAX {
        return Failure(PayloadTooLong(|data|));
      }
      var max := Max(sourceSymbols, 1) * Max(symbolSize, 1);
      if |data| > max {
        return Failure(PayloadTooLargeForBlock(|data|, max));
      }
      var profile := Profile(blockId, |data|, SourceSymbolCount(|data|, symbolSize), Max(symbolSize, 1));
      var count := profile.sourceSymbols + repairSymbols;
      var datagrams := [];
      GeometryAccepted(profile.transferLength, profile.sourceSymbols, profile.symbolSize);
      for esi := 0 to count
        invariant blockId == old(blockId) && sourceSymbols == old(sourceSymbols) && symbolSize == old(symbolSize)
        invariant packetSequence == Advance32(old(packetSequence), esi)
        invariant esi > 0 ==> profile.Valid()
        invariant |datagrams| == esi
        invariant forall k | 0 <= k < esi :: datagrams[k] == RunDatagram(code, profile, data, old(packetSequence), 0, k)
      {
        if profile.Valid() {
          RunDatagramIs(code, profile, data, old(packetSequence), 0, esi);
        } else {
          SymbolDatagramRefused(code, profile, data, packetSequence, esi);
        }
        var datagram := SymbolDatagram(code, profile, data, packetSequence, esi);
        if datagram.Failure? {
          return Failure(datagram.error);
        }
        datagrams := datagrams + [datagram.value];
        Advance32Steps(old(packetSequence), esi, 0);
        packetSequence := WrapAdd32(packetSequence, 1);
      }
      assert datagrams == SymbolRun(code, profile, data, old(packetSequence), 0, count);
      blockId := WrapAdd32(blockId, 1);
      r := Success(datagrams);
    }
  }

  // ----- on-demand repair

  datatype RepairCursor = RepairCursor(profile: Profile, nextRepairSymbol: u32, nextPacketSequence: u32) {
    ghost predicate Valid() {
      && profile.Valid()
      && profile.sourceSymbols + nextRepairSymbol <= ESI_LIMIT
    }
  }

  /** `validate_repair_symbol_range` */
  function ValidateRange(profile: Profile, next: u32, requested: u32): Result<(), FecError> {
    if next + requested > U32_MAX || next + requested > ESI_LIMIT - profile.sourceSymbols then
      Failure(RepairSymbolIdExhausted(profile.sourceSymbols, next, requested))
    else Success(())
  }

  /** `encode_additional` */
  function Additional(code: Code, data: Bytes, c: RepairCursor, count: u32): (RepairCursor, Result<seq<Bytes>, FecError>)
    requires code.Lawful() && c.Valid() && Describes(c.profile, data)
  {
    if count == 0 || count > HARD_MAX_EXTRA_REPAIR_SYMBOLS then
      (c, Failure(AdditionalRepairSymbolCount(count, HARD_MAX_EXTRA_REPAIR_SYMBOLS)))
    else
      var outputBytes := SatMul(DatagramSize(c.profile.symbolSize), count);
      if outputBytes > HARD_MAX_ADDITIONAL_REPAIR_BYTES then
        (c, Failure(AdditionalRepairOutputTooLarge(outputBytes, HARD_MAX_ADDITIONAL_REPAIR_BYTES)))
      else
        var range := ValidateRange(c.profile, c.nextRepairSymbol, count);
        if range.Failure? then (c, Failure(range.error)) else
          var first := c.profile.sourceSymbols + c.nextRepairSymbol;
          (c.(nextRepairSymbol := c.nextRepairSymbol + count,
              nextPacketSequence := Advance32(c.nextPacketSequence, count)),
           Success(SymbolRun(code, c.profile, data, c.nextPacketSequence, first, count)))
  }

  /** `RaptorQRepairEncoder::new`: the cursor, or why the source or the start ordinal is refused. */
  function OpenCursor(data: Bytes, profile: Profile, alreadyEmitted: u32, packetSequence: u32): Result<RepairCursor, FecError> {
    var _ :- ValidateGeometry(profile.transferLength, profile.sourceSymbols, profile.symbolSize);
    if profile.transferLength > HARD_MAX_REPAIR_SOURCE_BYTES then
      Failure(RepairSourceTooLarge(profile.transferLength, HARD_MAX_REPAIR_SOURCE_BYTES))
    else if |data| != profile.transferLength then Failure(TransferLengthMismatch(profile.transferLength, |data|))
    else
      var _ :- ValidateRange(profile, alreadyEmitted, 0);
      Success(RepairCursor(profile, alreadyEmitted, packetSequence))
  }

  lemma OpenCursorValid(data: Bytes, profile: Profile, alreadyEmitted: u32, packetSequence: u32)
    requires OpenCursor(data, profile, alreadyEmitted, packetSequence).Success?
    ensures var c := OpenCursor(data, profile, alreadyEmitted, packetSequence).value;
            c.Valid() && Describes(c.profile, data)
  {
    GeometryAccepted(profile.transferLength, profile.sourceSymbols, profile.symbolSize);
  }

  class RaptorQRepairEncoder {
    const code: Code
    const data: Bytes
    const profile: Profile
    var nextRepairSymbol: u32
    var nextPacketSequence: u32

    ghost function Abs(): RepairCursor
      reads this
    {
      RepairCursor(profile, nextRepairSymbol, nextPacketSequence)
    }

    ghost predicate Valid()
      reads this
    {
      code.Lawful() && Abs().Valid() && Describes(profile, data)
    }

    constructor (code: Code, data: Bytes, cursor: RepairCursor)
      requires code.Lawful() && cursor.Valid() && Describes(cursor.profile, data)
      ensures Valid() && Abs() == cursor && this.code == code && this.data == data
    {
      this.code, this.data, profile := code, data, cursor.profile;
      nextRepairSymbol, nextPacketSequence := cursor.nextRepairSymbol, cursor.nextPacketSequence;
    }

    method EncodeAdditional(count: u32) returns (r: Result<seq<Bytes>, FecError>)
      requires Valid()
      modifies this
      ensures Valid()
      ensures (Abs(), r) == Additional(code, data, old(Abs()), count)
      ensures r.Failure? ==> Abs() == old(Abs())
    {
      hide SymbolDatagram, RunDatagram, Parse, GenuineArrival, Advance32, WrapAdd32;
      Advance32Steps(nextPacketSequence, 0, 0);
      if count == 0 || count > HARD_MAX_EXTRA_REPAIR_SYMBOLS {
        return Failure(AdditionalRepairSymbolCount(count, HARD_MAX_EXTRA_REPAIR_SYMBOLS));
      }
      var outputBytes := SatMul(DatagramSize(profile.symbolSize), count);
      if outputBytes > HARD_MAX_ADDITIONAL_REPAIR_BYTES {
        return Failure(AdditionalRepairOutputTooLarge(outputBytes, HARD_MAX_ADDITIONAL_REPAIR_BYTES));
      }
      var range := ValidateRange(profile, nextRepairSymbol, count);
      if range.Failure? {
        return Failure(range.error);
      }
      var first := profile.sourceSymbols + nextRepairSymbol;
      var datagrams, packetSequence := [], nextPacketSequence;
      for k := 0 to count
        invariant packetSequence == Advance32(nextPacketSequence, k)
        invariant Abs() == old(Abs())
        invariant |datagrams| == k
        invariant forall i | 0 <= i < k :: datagrams[i] == RunDatagram(code, profile, data, nextPacketSequence, first, i)
      {
        RunDatagramIs(code, profile, data, nextPacketSequence, first, k);
        var datagram := SymbolDatagram(code, profile, data, packetSequence, first + k);
        datagrams := datagrams + [datagram.value];
        Advance32Steps(nextPacketSequence, k, 0);
        packetSequence := WrapAdd32(packetSequence, 1);
      }
      assert datagrams == SymbolRun(code, profile, data, nextPacketSequence, first, count);
      nextRepairSymbol := nextRepairSymbol + count;
      nextPacketSequence := packetSequence;
      r := Success(datagrams);
    }
  }

  /** The cursor and everything emitted after these calls, failed ones included. */
  ghost function RepairRun(code: Code, data: Bytes, c: RepairCursor, calls: seq<u32>): (RepairCursor, seq<Bytes>)
    requires code.Lawful() && c.Valid() && Describes(c.profile, data)
    ensures RepairRun(code, data, c, calls).0.Valid() && RepairRun(code, data, c, calls).0.profile == c.profile
  {
    if calls == [] then (c, []) else
      var (c', emitted) := RepairRun(code, data, c, calls[..|calls| - 1]);
      var (c'', r) := Additional(code, data, c', calls[|calls| - 1]);
      (c'', emitted + (if r.Success? then r.value else []))
  }

  /** Packet `k` of a run that starts at cursor `c`. */
  ghost predicate ContinuesRun(code: Code, data: Bytes, c: RepairCursor, datagram: Bytes, k: nat) {
    && Parse(datagram).Success?
    && var arrival := Parse(datagram).value;
    && GenuineArrival(code, Source(data, c.profile.symbolSize), arrival)
    && arrival.header.blockId == c.profile.blockId
    && arrival.packet.esi == c.profile.sourceSymbols + c.nextRepairSymbol + k
    && arrival.packet.esi < ESI_LIMIT
    && arrival.header.packetSequence == Advance32(c.nextPacketSequence, k)
  }

  /** A refused call changes nothing; an accepted one moves both cursors by what it emits. */
  lemma AdditionalMoves(code: Code, data: Bytes, c: RepairCursor, count: u32)
    requires code.Lawful() && c.Valid() && Describes(c.profile, data)
    ensures var outcome := Additional(code, data, c, count);
            if outcome.1.Failure? then outcome.0 == c else
              && |outcome.1.value| == count
              && outcome.0 == c.(nextRepairSymbol := c.nextRepairSymbol + count,
                                 nextPacketSequence := Advance32(c.nextPacketSequence, count))
  {
  }

  /**
   A batch is emitted exactly for 1 to 4,096 symbols of at most 16 MiB together whose ids stay below 2^24;
   otherwise the first of these three that fails is the answer.
   */
  lemma AdditionalWhen(code: Code, data: Bytes, c: RepairCursor, count: u32)
    requires code.Lawful() && c.Valid() && Describes(c.profile, data)
    ensures var r := Additional(code, data, c, count).1;
            var k, bytes := c.profile.sourceSymbols, (36 + c.profile.symbolSize) * count;
            if !(1 <= count <= 4_096) then r == Failure(AdditionalRepairSymbolCount(count, 4_096))
            else if bytes > 16_777_216 then r == Failure(AdditionalRepairOutputTooLarge(bytes, 16_777_216))
            else if k + c.nextRepairSymbol + count > 16_777_216 then
              r == Failure(RepairSymbolIdExhausted(k, c.nextRepairSymbol, count))
            else r.Success? && |r.value| == count
  {
    hide SymbolDatagram, RunDatagram;
    if count <= 4_096 {
      MulAtMost(36 + c.profile.symbolSize, 36 + 0xFFFF, count);
    }
  }

  /** Opening a repair encoder: what it takes, and the cursor it starts with. */
  lemma OpenCursorWhen(data: Bytes, profile: Profile, alreadyEmitted: u32, packetSequence: u32)
    ensures var r := OpenCursor(data, profile, alreadyEmitted, packetSequence);
            && (r.Success? <==>
                  && profile.sourceSymbols <= 56_403 && Holds(profile.transferLength, profile.sourceSymbols, profile.symbolSize)
                  && |data| == profile.transferLength <= 17_039_360
                  && profile.sourceSymbols + alreadyEmitted <= 16_777_216)
            && (r.Success? ==>
                  r.value.profile == profile && r.value.nextRepairSymbol == alreadyEmitted
                  && r.value.nextPacketSequence == packetSequence)
  {
    hide ValidateGeometry, Holds, ValidGeometry, ValidateRange;
    GeometryAccepted(profile.transferLength, profile.sourceSymbols, profile.symbolSize);
    ValidGeometryHolds(profile.transferLength, profile.sourceSymbols, profile.symbolSize);
    if profile.sourceSymbols <= 56_403 {
      StartRange(profile, alreadyEmitted);
    }
  }

  lemma StartRange(profile: Profile, alreadyEmitted: u32)
    requires profile.sourceSymbols <= 56_403
    ensures ValidateRange(profile, alreadyEmitted, 0).Success? <==> profile.sourceSymbols + alreadyEmitted <= 16_777_216
  {
  }

  lemma BatchContinuesRun(code: Code, data: Bytes, c: RepairCursor, c': RepairCursor, count: u32, emitted: nat, k: nat)
    requires code.Lawful() && c'.Valid() && Describes(c'.profile, data) && c'.profile == c.profile
    requires c'.nextRepairSymbol == c.nextRepairSymbol + emitted
    requires c'.nextPacketSequence == Advance32(c.nextPacketSequence, emitted)
    requires Additional(code, data, c', count).1.Success? && k < |Additional(code, data, c', count).1.value|
    ensures ContinuesRun(code, data, c, Additional(code, data, c', count).1.value[k], emitted + k)
  {
    hide SymbolDatagram, Parse, GenuineArrival, RunDatagram, Advance32;
    Advance32Steps(c.nextPacketSequence, emitted, k);
    var first := c'.profile.sourceSymbols + c'.nextRepairSymbol;
    RunDatagramIs(code, c'.profile, data, c'.nextPacketSequence, first, k);
    SymbolDatagramParses(code, c'.profile, data, Advance32(c'.nextPacketSequence, k), first + k);
    assert Additional(code, data, c', count).1.value[k]
        == RunDatagram(code, c'.profile, data, c'.nextPacketSequence, first, k);
  }

  /**
   Over any mix of accepted and refused calls the packets emitted are one run: consecutive Encoding
   Symbol IDs from K plus the initial ordinal, all below 2^24 and so never repeated, consecutive
   packet sequence numbers modulo 2^32, every one a genuine symbol of the block.
   */
  lemma {:induction false} RepairRunContiguous(code: Code, data: Bytes, c: RepairCursor, calls: seq<u32>)
    requires code.Lawful() && c.Valid() && Describes(c.profile, data)
    ensures var run := RepairRun(code, data, c, calls);
            && run.0.nextRepairSymbol == c.nextRepairSymbol + |run.1|
            && run.0.nextPacketSequence == Advance32(c.nextPacketSequence, |run.1|)
            && forall k | 0 <= k < |run.1| :: ContinuesRun(code, data, c, run.1[k], k)
  {
    hide Additional, ContinuesRun, Advance32;
    Advance32Steps(c.nextPacketSequence, 0, 0);
    if calls != [] {
      var before, count := calls[..|calls| - 1], calls[|calls| - 1];
      RepairRunContiguous(code, data, c, before);
      var c', emitted := RepairRun(code, data, c, before).0, RepairRun(code, data, c, before).1;
      var r := Additional(code, data, c', count).1;
      AdditionalMoves(code, data, c', count);
      Advance32Steps(c.nextPacketSequence, |emitted|, count);
      if r.Success? {
        var all := emitted + r.value;
        forall k | 0 <= k < |all| ensures ContinuesRun(code, data, c, all[k], k) {
          if k >= |emitted| {
            BatchContinuesRun(code, data, c, c', count, |emitted|, k - |emitted|);
          }
        }
        assert RepairRun(code, data, c, calls).1 == all;
      } else {
        assert RepairRun(code, data, c, calls) == (c', emitted + []);
        assert emitted + [] == emitted;
      }
    }
  }
}
