/**
 The self-describing header of an audio shard: every source symbol says which epoch, group and
 fragment it carries, so it can be delivered without waiting for the rest of its block.
 */
module ShardHeaders {
  import opened AudioTypes
  import opened ByteCodec
  import opened Geometry
  import opened MachineInts
  import opened Wrappers
  import RaptorQ

  /** "MAE1" */
  const SHARD_MAGIC: Bytes := [0x4D, 0x41, 0x45, 0x31]
  const SHARD_VERSION: u8 := 1

  function KindByte(kind: PayloadKind): u8 {
    match kind case Pcm => 1 case Opus => 2 case Flac => 3
  }

  function KindOf(byte: u8): Result<PayloadKind, AudioError> {
    if byte == 1 then Success(Pcm) else if byte == 2 then Success(Opus) else if byte == 3 then Success(Flac)
    else Failure(UnsupportedPayloadKind(byte))
  }

  function FormatByte(format: SampleFormat): u8 {
    match format case Unspecified => 0 case S16Le => 1 case S24Le => 2 case S32Le => 3 case F32Le => 4
  }

  function FormatOf(byte: u8): Result<SampleFormat, AudioError> {
    if byte == 0 then Success(Unspecified) else if byte == 1 then Success(S16Le) else if byte == 2 then Success(S24Le)
    else if byte == 3 then Success(S32Le) else if byte == 4 then Success(F32Le)
    else Failure(UnsupportedSampleFormat(byte))
  }

  datatype ShardHeader = ShardHeader(
    payloadKind: PayloadKind, sampleFormat: SampleFormat, flags: u8, sessionId: u64, configGeneration: u32,
    sampleRate: u32, frameCount: u32, epochId: u64, ptsSamples: u64, groupId: u16, groupIndex: u16, groupCount: u16,
    channelStart: u16, channelCount: u16, fragmentIndex: u16, fragmentCount: u16, sourceIndex: u16, sourceCount: u16,
    payloadLen: u16, payloadOffset: u32, groupPayloadLen: u32)
  {
    /** `validate` against the length of the symbol the header sits in */
    function Validate(symbolLen: nat): Result<(), AudioError> {
      if frameCount == 0 then Failure(InvalidFrameCount)
      else if sampleRate == 0 then Failure(InvalidSampleRate)
      else if payloadKind.Flac? && sampleFormat.Unspecified? then Failure(FlacFormatRequired(groupId))
      else if groupCount == 0 || groupIndex >= groupCount then Failure(InvalidGroupIndex(groupIndex, groupCount))
      else if channelCount == 0 then Failure(InvalidChannelCount(groupId))
      else if fragmentCount == 0 || fragmentIndex >= fragmentCount then
        Failure(InvalidFragmentIndex(fragmentIndex, fragmentCount))
      else if sourceCount == 0 || sourceIndex >= sourceCount then Failure(InvalidSourceIndex(sourceIndex, sourceCount))
      else if payloadOffset + payloadLen > groupPayloadLen then
        Failure(InvalidPayloadRange(payloadOffset, payloadLen, groupPayloadLen))
      else if SHARD_HEADER_LEN + payloadLen > symbolLen then
        Failure(ShardPayloadTooLong(payloadLen, SatSub(symbolLen, SHARD_HEADER_LEN)))
      else Success(())
    }

    function Fields(): seq<nat> {
      [SHARD_VERSION, KindByte(payloadKind), FormatByte(sampleFormat), flags, sessionId, configGeneration, frameCount,
       epochId, ptsSamples, groupId, groupIndex, groupCount, channelStart, channelCount, fragmentIndex, fragmentCount,
       sourceIndex, sourceCount, payloadLen, payloadOffset, groupPayloadLen, sampleRate]
    }

    /** The 72 header bytes. */
    function Encoded(): (bytes: Bytes)
      ensures |bytes| == SHARD_HEADER_LEN
    {
      WidthsTotal();
      SHARD_MAGIC + EncodeFields(WIDTHS, Fields())
    }
  }

  /** Widths of the fields behind the magic, in wire order. */
  const WIDTHS: seq<nat> := [1, 1, 1, 1] + [8, 4, 4, 8] + [8, 2, 2, 2] + [2, 2, 2, 2] + [2, 2, 2, 4] + [4, 4]

  lemma WidthsTotal()
    ensures TotalWidth(WIDTHS) == SHARD_HEADER_LEN - 4 && |WIDTHS| == 22
  {
    hide TotalWidth;
    var a := [] + [1, 1, 1, 1];
    AppendFour([], 1, 1, 1, 1);
    AppendFour(a, 8, 4, 4, 8);
    AppendFour(a + [8, 4, 4, 8], 8, 2, 2, 2);
    AppendFour(a + [8, 4, 4, 8] + [8, 2, 2, 2], 2, 2, 2, 2);
    AppendFour(a + [8, 4, 4, 8] + [8, 2, 2, 2] + [2, 2, 2, 2], 2, 2, 2, 4);
    WidthOfTwo(4, 4);
    TotalWidthConcat(a + [8, 4, 4, 8] + [8, 2, 2, 2] + [2, 2, 2, 2] + [2, 2, 2, 4], [4, 4]);
    EmptyTable();
    assert a == [1, 1, 1, 1];
  }

  function Decode(symbol: Bytes): Result<ShardHeader, AudioError> {
    if |symbol| < SHARD_HEADER_LEN then Failure(ShardTooShort(|symbol|))
    else if symbol[..4] != SHARD_MAGIC then Failure(InvalidShardMagic(symbol[..4]))
    else if symbol[4] != SHARD_VERSION then Failure(UnsupportedShardVersion(symbol[4]))
    else
      var kind :- KindOf(symbol[5]);
      var format :- FormatOf(symbol[6]);
      var header := HeaderAt(symbol, kind, format);
      var _ :- header.Validate(|symbol|);
      Success(header)
  }

  function HeaderAt(symbol: Bytes, kind: PayloadKind, format: SampleFormat): ShardHeader
    requires |symbol| >= SHARD_HEADER_LEN
  {
    WidthsTotal();
    var v := DecodeFields(WIDTHS, symbol[4..]);
    FieldsWithin(v);
    ShardHeader(kind, format, v[3], v[4], v[5], v[21], v[6], v[7], v[8], v[9], v[10], v[11], v[12], v[13], v[14], v[15],
                v[16], v[17], v[18], v[19], v[20])
  }

  lemma FieldsWithin(v: seq<nat>)
    requires Fits(WIDTHS, v)
    ensures forall k | 0 <= k < 4 :: v[k] <= U8_MAX
    ensures v[4] <= U64_MAX && v[7] <= U64_MAX && v[8] <= U64_MAX
    ensures v[5] <= U32_MAX && v[6] <= U32_MAX && v[19] <= U32_MAX && v[20] <= U32_MAX && v[21] <= U32_MAX
    ensures forall k | 9 <= k < 19 :: v[k] <= U16_MAX
  {
    Pow256Values();
    assert forall k | 0 <= k < 22 :: v[k] < Pow256(WIDTHS[k]);
  }

  lemma HeaderFieldsFit(h: ShardHeader)
    ensures Fits(WIDTHS, h.Fields())
  {
    Pow256Values();
    var widths, fields := WIDTHS, h.Fields();
    assert |widths| == 22 == |fields|;
    assert forall k | 0 <= k < 4 :: widths[k] == 1 && fields[k] < 0x100;
    assert forall k | 9 <= k < 19 :: widths[k] == 2 && fields[k] < 0x1_0000;
  }

  /** A header that is valid for its symbol is read back from it, whatever follows. */
  lemma ShardRoundTrip(h: ShardHeader, rest: Bytes)
    requires h.Validate(SHARD_HEADER_LEN + |rest|).Success?
    ensures Decode(h.Encoded() + rest) == Success(h)
  {
    hide ToLE, FromLE, DecodeFields, EncodeFields, TotalWidth, ShardHeader.Validate;
    var symbol := h.Encoded() + rest;
    var fields := EncodeFields(WIDTHS, h.Fields());
    HeaderFieldsFit(h);
    WidthsTotal();
    assert symbol[..4] == SHARD_MAGIC;
    assert symbol[4..] == fields + rest;
    DecodeEncodeFields(WIDTHS, h.Fields(), rest);
    FirstBytes(symbol);
    assert symbol[4] == h.Fields()[0] && symbol[5] == h.Fields()[1] && symbol[6] == h.Fields()[2];
  }

  /** The first three fields are single bytes. */
  lemma FirstBytes(symbol: Bytes)
    requires |symbol| >= SHARD_HEADER_LEN && TotalWidth(WIDTHS) == SHARD_HEADER_LEN - 4
    ensures var v := DecodeFields(WIDTHS, symbol[4..]);
            v[0] == symbol[4] && v[1] == symbol[5] && v[2] == symbol[6]
  {
    var b := symbol[4..];
    SingleByte(b[0]);
    SingleByte(b[1]);
    SingleByte(b[2]);
    assert b[..1] == [b[0]] && b[1..][..1] == [b[1]] && b[1..][1..][..1] == [b[2]];
    assert WIDTHS[1..][0] == 1 && WIDTHS[1..][1..][0] == 1;
    var v := DecodeFields(WIDTHS, b);
    assert v[1..] == DecodeFields(WIDTHS[1..], b[1..]);
    assert v[1..][1..] == DecodeFields(WIDTHS[1..][1..], b[1..][1..]);
  }

  /** Byte at which each field starts. */
  const STARTS: seq<nat> := [4, 5, 6, 7] + [8, 16, 20, 24] + [32, 40, 42, 44] + [46, 48, 50, 52] + [54, 56, 58, 60] + [64, 68]

  /** Behind the three identifying bytes, a header's fields are those decoded. */
  lemma FieldsOfHeaderAt(symbol: Bytes, kind: PayloadKind, format: SampleFormat)
    requires |symbol| >= SHARD_HEADER_LEN == 4 + TotalWidth(WIDTHS)
    ensures HeaderAt(symbol, kind, format).Fields()
            == [SHARD_VERSION, KindByte(kind), FormatByte(format)] + DecodeFields(WIDTHS, symbol[4..])[3..]
  {
    hide FromLE, DecodeFields, TotalWidth;
    FieldsWithin(DecodeFields(WIDTHS, symbol[4..]));
  }

  lemma FieldsAre(symbol: Bytes)
    requires Decode(symbol).Success?
    ensures |symbol| >= SHARD_HEADER_LEN == 4 + TotalWidth(WIDTHS)
    ensures Decode(symbol).value.Fields() == DecodeFields(WIDTHS, symbol[4..])
  {
    hide FromLE, DecodeFields, TotalWidth, ShardHeader.Validate, HeaderAt, ShardHeader.Fields, Fits;
    WidthsTotal();
    FirstBytes(symbol);
    var v := DecodeFields(WIDTHS, symbol[4..]);
    FieldsOfHeaderAt(symbol, KindOf(symbol[5]).value, FormatOf(symbol[6]).value);
    FieldCount(v);
    assert v == [v[0], v[1], v[2]] + v[3..];
  }

  lemma FieldCount(v: seq<nat>)
    requires Fits(WIDTHS, v)
    ensures |v| == 22
  {
  }

  /** Field `k` of a decoded header is the little-endian integer at its bytes. */
  lemma ShardField(symbol: Bytes, k: nat)
    requires Decode(symbol).Success? && k < 22
    ensures |STARTS| == 22 == |WIDTHS| && STARTS[k] + WIDTHS[k] <= |symbol|
    ensures Decode(symbol).value.Fields()[k] == FromLE(symbol[STARTS[k]..STARTS[k] + WIDTHS[k]])
  {
    hide FromLE, DecodeFields, TotalWidth, Offset, Starts, Fits, Decode, ShardHeader.Fields;
    FieldsAre(symbol);
    StartsMatch();
    FieldsAtStarts(4, WIDTHS, STARTS, symbol);
  }

  /** The wire layout, the bytes that are not plain integers. */
  lemma IdentifyingBytes(symbol: Bytes)
    requires Decode(symbol).Success?
    ensures var h := Decode(symbol).value;
            && |symbol| >= 72 && symbol[..5] == [0x4D, 0x41, 0x45, 0x31, 1]
            && (h.payloadKind.Pcm? <==> symbol[5] == 1) && (h.payloadKind.Opus? <==> symbol[5] == 2)
            && (h.payloadKind.Flac? <==> symbol[5] == 3)
            && (h.sampleFormat.Unspecified? <==> symbol[6] == 0) && (h.sampleFormat.S16Le? <==> symbol[6] == 1)
            && (h.sampleFormat.S24Le? <==> symbol[6] == 2) && (h.sampleFormat.S32Le? <==> symbol[6] == 3)
            && (h.sampleFormat.F32Le? <==> symbol[6] == 4)
  {
    hide DecodeFields, ShardHeader.Validate;
    assert symbol[..5] == symbol[..4] + [symbol[4]];
  }

  /** The fields that decide whether a header is accepted, from their bytes. */
  lemma HeaderBytes(symbol: Bytes, kind: PayloadKind, format: SampleFormat)
    requires |symbol| >= 72
    ensures var h := HeaderAt(symbol, kind, format);
            && h.payloadKind == kind && h.sampleFormat == format
            && h.frameCount == FromLE(symbol[20..24]) && h.sampleRate == FromLE(symbol[68..72])
            && h.groupId == FromLE(symbol[40..42]) && h.groupIndex == FromLE(symbol[42..44])
            && h.groupCount == FromLE(symbol[44..46]) && h.channelCount == FromLE(symbol[48..50])
    ensures var h := HeaderAt(symbol, kind, format);
            && h.fragmentIndex == FromLE(symbol[50..52]) && h.fragmentCount == FromLE(symbol[52..54])
            && h.sourceIndex == FromLE(symbol[54..56]) && h.sourceCount == FromLE(symbol[56..58])
            && h.payloadLen == FromLE(symbol[58..60]) && h.payloadOffset == FromLE(symbol[60..64])
            && h.groupPayloadLen == FromLE(symbol[64..68])
  {
    hide FromLE, DecodeFields, TotalWidth, Offset, Starts;
    WidthsTotal();
    StartsMatch();
    FieldsWithin(DecodeFields(WIDTHS, symbol[4..]));
    FieldsAtStarts(4, WIDTHS, STARTS, symbol);
    StartsAndWidths();
  }

  lemma StartsAndWidths()
    ensures |STARTS| == 22 == |WIDTHS|
    ensures STARTS[6] == 20 && WIDTHS[6] == 4 && STARTS[9] == 40 && WIDTHS[9] == 2 && STARTS[10] == 42 && WIDTHS[10] == 2
    ensures STARTS[11] == 44 && WIDTHS[11] == 2 && STARTS[13] == 48 && WIDTHS[13] == 2 && STARTS[14] == 50 && WIDTHS[14] == 2
    ensures STARTS[15] == 52 && WIDTHS[15] == 2 && STARTS[16] == 54 && WIDTHS[16] == 2 && STARTS[17] == 56 && WIDTHS[17] == 2
    ensures STARTS[18] == 58 && WIDTHS[18] == 2 && STARTS[19] == 60 && WIDTHS[19] == 4 && STARTS[20] == 64 && WIDTHS[20] == 4
    ensures STARTS[21] == 68 && WIDTHS[21] == 4
  {
  }

  /**
   A shard header is accepted exactly for "MAE1" version 1, a known kind and format, a format with FLAC,
   positive frame count, sample rate and channel count, group, fragment and source indices below their
   counts, and a payload that lies within its group and within the symbol.
   */
  lemma ShardAccepted(symbol: Bytes)
    ensures Decode(symbol).Success? <==>
              && |symbol| >= 72 && symbol[..5] == [0x4D, 0x41, 0x45, 0x31, 1] && 1 <= symbol[5] <= 3 && symbol[6] <= 4
              && !(symbol[5] == 3 && symbol[6] == 0)
              && FromLE(symbol[20..24]) > 0 && FromLE(symbol[68..72]) > 0 && FromLE(symbol[48..50]) > 0
              && FromLE(symbol[42..44]) < FromLE(symbol[44..46]) && FromLE(symbol[50..52]) < FromLE(symbol[52..54])
              && FromLE(symbol[54..56]) < FromLE(symbol[56..58])
              && FromLE(symbol[60..64]) + FromLE(symbol[58..60]) <= FromLE(symbol[64..68])
              && 72 + FromLE(symbol[58..60]) <= |symbol|
  {
    hide FromLE, HeaderAt;
    if |symbol| >= 72 {
      assert symbol[..5] == symbol[..4] + [symbol[4]];
      assert symbol[..4] == symbol[..5][..4];
      if KindOf(symbol[5]).Success? && FormatOf(symbol[6]).Success? {
        HeaderBytes(symbol, KindOf(symbol[5]).value, FormatOf(symbol[6]).value);
      }
    }
  }

  /** Why bytes are no shard, in the order of the checks. */
  lemma ShardRefused(symbol: Bytes)
    ensures var r := Decode(symbol);
            if |symbol| < 72 then r == Failure(ShardTooShort(|symbol|))
            else if symbol[..4] != [0x4D, 0x41, 0x45, 0x31] then r == Failure(InvalidShardMagic(symbol[..4]))
            else if symbol[4] != 1 then r == Failure(UnsupportedShardVersion(symbol[4]))
            else if !(1 <= symbol[5] <= 3) then r == Failure(UnsupportedPayloadKind(symbol[5]))
            else if symbol[6] > 4 then r == Failure(UnsupportedSampleFormat(symbol[6]))
            else if FromLE(symbol[20..24]) == 0 then r == Failure(InvalidFrameCount)
            else if FromLE(symbol[68..72]) == 0 then r == Failure(InvalidSampleRate)
            else
              var group := FromLE(symbol[40..42]);
              if symbol[5] == 3 && symbol[6] == 0 then r == Failure(FlacFormatRequired(group))
              else if FromLE(symbol[42..44]) >= FromLE(symbol[44..46]) then
                r == Failure(InvalidGroupIndex(FromLE(symbol[42..44]), FromLE(symbol[44..46])))
              else if FromLE(symbol[48..50]) == 0 then r == Failure(InvalidChannelCount(group))
              else if FromLE(symbol[50..52]) >= FromLE(symbol[52..54]) then
                r == Failure(InvalidFragmentIndex(FromLE(symbol[50..52]), FromLE(symbol[52..54])))
              else if FromLE(symbol[54..56]) >= FromLE(symbol[56..58]) then
                r == Failure(InvalidSourceIndex(FromLE(symbol[54..56]), FromLE(symbol[56..58])))
              else
                var (length, offset, total) := (FromLE(symbol[58..60]), FromLE(symbol[60..64]), FromLE(symbol[64..68]));
                if offset + length > total then r == Failure(InvalidPayloadRange(offset, length, total))
                else if 72 + length > |symbol| then r == Failure(ShardPayloadTooLong(length, |symbol| - 72))
                else r.Success?
  {
    hide FromLE, HeaderAt;
    if |symbol| >= 72 && KindOf(symbol[5]).Success? && FormatOf(symbol[6]).Success? {
      HeaderBytes(symbol, KindOf(symbol[5]).value, FormatOf(symbol[6]).value);
    }
  }

  /** The wire layout, session and timing fields: which bytes of a symbol each is. */
  lemma SessionFieldsLayout(symbol: Bytes)
    requires Decode(symbol).Success?
    ensures var h := Decode(symbol).value;
            && |symbol| >= SHARD_HEADER_LEN
            && h.flags == FromLE(symbol[7..8]) && h.sessionId == FromLE(symbol[8..16])
            && h.configGeneration == FromLE(symbol[16..20]) && h.frameCount == FromLE(symbol[20..24])
  {
    hide FromLE, DecodeFields, TotalWidth, ShardHeader.Validate, HeaderAt;
    ShardField(symbol, 3);
    ShardField(symbol, 4);
    ShardField(symbol, 5);
    ShardField(symbol, 6);
  }

  lemma TimingFieldsLayout(symbol: Bytes)
    requires Decode(symbol).Success?
    ensures var h := Decode(symbol).value;
            && |symbol| >= SHARD_HEADER_LEN
            && h.epochId == FromLE(symbol[24..32]) && h.ptsSamples == FromLE(symbol[32..40])
            && h.sampleRate == FromLE(symbol[68..72])
  {
    hide FromLE, DecodeFields, TotalWidth, ShardHeader.Validate, HeaderAt;
    ShardField(symbol, 7);
    ShardField(symbol, 8);
    ShardField(symbol, 21);
  }

  /** The wire layout, group and fragment fields. */
  lemma GroupFieldsLayout(symbol: Bytes)
    requires Decode(symbol).Success?
    ensures var h := Decode(symbol).value;
            && |symbol| >= SHARD_HEADER_LEN
            && h.groupId == FromLE(symbol[40..42]) && h.groupIndex == FromLE(symbol[42..44])
            && h.groupCount == FromLE(symbol[44..46]) && h.channelStart == FromLE(symbol[46..48])
            && h.channelCount == FromLE(symbol[48..50]) && h.fragmentIndex == FromLE(symbol[50..52])
            && h.fragmentCount == FromLE(symbol[52..54]) && h.sourceIndex == FromLE(symbol[54..56])
            && h.sourceCount == FromLE(symbol[56..58]) && h.payloadLen == FromLE(symbol[58..60])
            && h.payloadOffset == FromLE(symbol[60..64]) && h.groupPayloadLen == FromLE(symbol[64..68])
  {
    hide FromLE, DecodeFields, TotalWidth, ShardHeader.Validate, HeaderAt;
    ShardField(symbol, 9);
    ShardField(symbol, 10);
    ShardField(symbol, 11);
    ShardField(symbol, 12);
    ShardField(symbol, 13);
    ShardField(symbol, 14);
    ShardField(symbol, 15);
    ShardField(symbol, 16);
    ShardField(symbol, 17);
    ShardField(symbol, 18);
    ShardField(symbol, 19);
    ShardField(symbol, 20);
  }

  lemma StartsMatch()
    ensures Starts(4, WIDTHS, STARTS) && |STARTS| == 22 == |WIDTHS|
  {
  }

  /** Encoding a decoded header gives the symbol's first 72 bytes back. */
  lemma ShardReencodes(symbol: Bytes)
    requires Decode(symbol).Success?
    ensures Decode(symbol).value.Encoded() == symbol[..SHARD_HEADER_LEN]
  {
    hide ToLE, FromLE, DecodeFields, EncodeFields, TotalWidth, ShardHeader.Validate, ShardHeader.Fields, HeaderAt;
    FieldsAre(symbol);
    EncodeDecodeFields(WIDTHS, symbol[4..]);
    assert symbol[..SHARD_HEADER_LEN] == symbol[..4] + symbol[4..][..SHARD_HEADER_LEN - 4];
  }

  datatype Recovery = Systematic | Repaired

  datatype Shard = Shard(blockId: u32, header: ShardHeader, recovery: Recovery, payload: Bytes)

  /** `decode_symbol` */
  function DecodeSymbol(blockId: u32, symbol: Bytes, expectedCount: u16, expectedIndex: u16, recovery: Recovery)
    : Result<Shard, AudioError>
  {
    var header :- Decode(symbol);
    if header.sourceCount != expectedCount || header.sourceIndex != expectedIndex then
      Failure(SourceIdentityMismatch(expectedIndex, header.sourceIndex, expectedCount, header.sourceCount))
    else
      Success(Shard(blockId, header, recovery, symbol[SHARD_HEADER_LEN..SHARD_HEADER_LEN + header.payloadLen]))
  }

  /** A source symbol: header, fragment, zero padding. */
  function Symbol(h: ShardHeader, payload: Bytes, symbolSize: nat): (symbol: Bytes)
    requires SHARD_HEADER_LEN + |payload| <= symbolSize
    ensures |symbol| == symbolSize
  {
    h.Encoded() + payload + RaptorQ.Zeros(symbolSize - SHARD_HEADER_LEN - |payload|)
  }

  /** A symbol is the shard expected: its payload follows the header; another index or count is refused. */
  lemma SymbolIs(blockId: u32, symbol: Bytes, expectedCount: u16, expectedIndex: u16, recovery: Recovery)
    ensures var r := DecodeSymbol(blockId, symbol, expectedCount, expectedIndex, recovery);
            if Decode(symbol).Failure? then r == Failure(Decode(symbol).error)
            else
              var h := Decode(symbol).value;
              if h.sourceIndex != expectedIndex || h.sourceCount != expectedCount then
                r == Failure(SourceIdentityMismatch(expectedIndex, h.sourceIndex, expectedCount, h.sourceCount))
              else
                && 72 + h.payloadLen <= |symbol|
                && r == Success(Shard(blockId, h, recovery, symbol[72..72 + h.payloadLen]))
  {
    hide HeaderAt;
  }

  lemma SymbolRoundTrip(blockId: u32, h: ShardHeader, payload: Bytes, symbolSize: nat, recovery: Recovery)
    requires SHARD_HEADER_LEN + |payload| <= symbolSize && h.payloadLen == |payload|
    requires h.Validate(symbolSize).Success?
    ensures DecodeSymbol(blockId, Symbol(h, payload, symbolSize), h.sourceCount, h.sourceIndex, recovery)
            == Success(Shard(blockId, h, recovery, payload))
  {
    hide ShardHeader.Encoded, ShardHeader.Validate, Decode;
    var symbol := Symbol(h, payload, symbolSize);
    var rest := payload + RaptorQ.Zeros(symbolSize - SHARD_HEADER_LEN - |payload|);
    assert symbol == h.Encoded() + rest;
    ShardRoundTrip(h, rest);
    assert symbol[SHARD_HEADER_LEN..SHARD_HEADER_LEN + |payload|] == payload;
  }

  /** Behind its 72 bytes of header a symbol is the fragment, then zeros to the end. */
  lemma SymbolBytes(h: ShardHeader, payload: Bytes, symbolSize: nat, t: nat)
    requires 72 + |payload| <= symbolSize && t < symbolSize
    ensures var symbol := Symbol(h, payload, symbolSize);
            symbol[t] == if t < 72 then h.Encoded()[t] else if t - 72 < |payload| then payload[t - 72] else 0
  {
    hide ShardHeader.Encoded;
  }

  /** What every decoded shard satisfies, whatever the symbol was. */
  lemma DecodedShardInRange(blockId: u32, symbol: Bytes, count: u16, index: u16, recovery: Recovery)
    requires DecodeSymbol(blockId, symbol, count, index, recovery).Success?
    ensures var shard := DecodeSymbol(blockId, symbol, count, index, recovery).value;
            && shard.blockId == blockId && shard.recovery == recovery
            && shard.header.sourceIndex == index < count == shard.header.sourceCount
            && shard.header.groupIndex < shard.header.groupCount
            && shard.header.fragmentIndex < shard.header.fragmentCount
            && |shard.payload| == shard.header.payloadLen
            && shard.header.payloadOffset + |shard.payload| <= shard.header.groupPayloadLen
  {
    hide HeaderAt;
  }

  /** Writes a header over the front of a symbol buffer, or leaves the buffer alone. */
  method EncodeInto(h: ShardHeader, buffer: array<u8>, at: nat, symbolLen: nat) returns (r: Result<(), AudioError>)
    requires at + symbolLen <= buffer.Length
    modifies buffer
    ensures symbolLen < SHARD_HEADER_LEN ==> r == Failure(ShardTooShort(symbolLen))
    ensures symbolLen >= SHARD_HEADER_LEN ==> r == h.Validate(symbolLen)
    ensures r.Failure? ==> buffer[..] == old(buffer[..])
    ensures r.Success? ==>
              buffer[..] == old(buffer[..at]) + h.Encoded() + old(buffer[at + SHARD_HEADER_LEN..])
  {
    if symbolLen < SHARD_HEADER_LEN {
      return Failure(ShardTooShort(symbolLen));
    }
    r := h.Validate(symbolLen);
    if r.Success? {
      var bytes := h.Encoded();
      forall i | 0 <= i < SHARD_HEADER_LEN {
        buffer[at + i] := bytes[i];
      }
    }
  }
}
