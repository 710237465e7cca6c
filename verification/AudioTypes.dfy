/** Epochs of channel groups and the errors of the multichannel audio packetizer. */
module AudioTypes {
  import opened ByteCodec
  import opened MachineInts
  import Datagram

  datatype PayloadKind = Pcm | Opus | Flac

  datatype SampleFormat = Unspecified | S16Le | S24Le | S32Le | F32Le

  datatype Group = Group(groupId: u16, channelStart: u16, channelCount: u16, payloadKind: PayloadKind,
                         sampleFormat: SampleFormat, flags: u8, payload: Bytes)

  datatype Epoch = Epoch(sessionId: u64, configGeneration: u32, epochId: u64, ptsSamples: u64,
                         sampleRate: u32, frameCount: u32, groups: seq<Group>)

  datatype AudioError =
    | Fec(error: Datagram.FecError)
    | DatagramBudgetTooSmall(maxDatagramSize: nat, required: nat)
    | SymbolSizeTooLarge(symbolSize: nat)
    | EmptyEpoch
    | InvalidFrameCount
    | InvalidSampleRate
    | TooManyGroups(groups: nat)
    | InvalidChannelCount(groupId: u16)
    | PcmFormatRequired(groupId: u16)
    | FlacFormatRequired(groupId: u16)
    | GroupPayloadTooLong(groupId: u16, length: nat)
    | TooManyFragments(groupId: u16, fragments: nat)
    | TooManySourceSymbols(symbols: nat, limit: u16)
    | EncodedDatagramTooLarge(length: nat, max: nat)
    | ShardTooShort(length: nat)
    | InvalidShardMagic(magic: Bytes)
    | UnsupportedShardVersion(byte: u8)
    | UnsupportedPayloadKind(byte: u8)
    | UnsupportedSampleFormat(byte: u8)
    | InvalidGroupIndex(index: u16, count: u16)
    | InvalidFragmentIndex(index: u16, count: u16)
    | InvalidSourceIndex(index: u16, count: u16)
    | InvalidPayloadRange(offset: u32, payloadLen: u16, total: u32)
    | ShardPayloadTooLong(length: nat, max: nat)
    | SourceIdentityMismatch(expectedIndex: u16, actualIndex: u16, expectedCount: u16, actualCount: u16)
    | DecodedObjectLengthMismatch(expected: nat, actual: nat)
}
