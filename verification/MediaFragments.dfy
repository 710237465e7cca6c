/**
 The compact header in front of every media block: which frame, which fragment of it, and the
 decode timestamp as a 16-bit offset with a sentinel for "none".
 */
module MediaFragments {
  import opened ByteCodec
  import opened Datagram
  import opened MachineInts
  import opened Wrappers

  const MEDIA_HEADER_LEN := 44
  const FLAG_KEYFRAME: u16 := 1
  const FLAG_CODEC_CONFIG: u16 := 2
  const FLAG_INITIALIZATION: u16 := 16

  type i16 = x: int | -0x8000 <= x <= 0x7FFF

  /** Offset that stands for "no decode timestamp". */
  const NO_DTS: i16 := -0x8000

  datatype Codec = Unknown | H264 | OpusCodec | Aac | DataCodec

  datatype Metadata = Metadata(
    streamId: u64, sequence: u64, ptsMs: u64, dtsMs: Option<u64>, durationMs: u32, codec: Codec, flags: u16)

  datatype FragmentHeader = FragmentHeader(
    metadata: Metadata, fragmentIndex: u16, fragmentCount: u16, accessUnitLen: u32, fragmentOffset: u32)

  datatype MediaError =
    | Fec(error: FecError)
    | HeaderTooShort(actual: nat)
    | FlagsTooLarge(actual: nat)
    | DurationTooLarge(actual: nat)
    | DtsDeltaOutOfRange(ptsMs: u64, dtsMs: u64)
    | InvalidDtsDelta(ptsMs: u64, deltaMs: i16)
    | BlockTooSmall(maxBlockPayload: nat, headerLen: nat)
    | TooManyFragments(actual: nat)
    | AccessUnitTooLarge(actual: nat)
    | InvalidFragmentIndex(index: u16, count: u16)
    | ConflictingMetadata
    | ConflictingAccessUnitLength
    | AccessUnitLengthMismatch(expected: nat, actual: nat)
    | IncompleteFrame

  function CodecByte(codec: Codec): u8 {
    match codec case Unknown => 0 case H264 => 1 case OpusCodec => 2 case Aac => 3 case DataCodec => 255
  }

  function CodecOf(byte: u8): Codec {
    if byte == 1 then H264 else if byte == 2 then OpusCodec else if byte == 3 then Aac
    else if byte == 255 then DataCodec else Unknown
  }

  /** Whether the flag, a power of two, is set. */
  predicate HasFlag(flags: u16, flag: u16)
    requires flag > 0
  {
    flags / flag % 2 == 1
  }

  // ----- decode timestamps

  /** `encode_dts_delta_ms` */
  function EncodeDts(m: Metadata): Result<i16, MediaError> {
    match m.dtsMs
    case None => Success(NO_DTS)
    case Some(dts) =>
      var delta := dts - m.ptsMs;
      if delta < NO_DTS + 1 || delta > 0x7FFF then Failure(DtsDeltaOutOfRange(m.ptsMs, dts)) else Success(delta)
  }

  /** `decode_dts_ms` */
  function DecodeDts(ptsMs: u64, delta: i16): Result<Option<u64>, MediaError> {
    if delta == NO_DTS then Success(None)
    else if 0 <= ptsMs + delta <= U64_MAX then Success(Some(ptsMs + delta))
    else Failure(InvalidDtsDelta(ptsMs, delta))
  }

  /** Two's complement of a 16-bit integer. */
  function ToUnsigned(x: i16): u16 {
    if x < 0 then x + 0x1_0000 else x
  }

  function ToSigned(x: u16): i16 {
    if x >= 0x8000 then x - 0x1_0000 else x
  }

  // ----- the header

  /** Widths of the fields in wire order. */
  const MEDIA_WIDTHS: seq<nat> := [1, 1, 2, 2] + [2, 8, 8, 8] + [4, 4, 2, 2]

  function FieldsOf(h: FragmentHeader, delta: i16): seq<nat> {
    [CodecByte(h.metadata.codec), h.metadata.flags, h.fragmentIndex, h.fragmentCount, h.metadata.durationMs,
     h.metadata.streamId, h.metadata.sequence, h.metadata.ptsMs, h.accessUnitLen, h.fragmentOffset, ToUnsigned(delta), 0]
  }

  lemma MediaWidthsTotal()
    ensures TotalWidth(MEDIA_WIDTHS) == MEDIA_HEADER_LEN && |MEDIA_WIDTHS| == 12
  {
    hide TotalWidth;
    var a := [] + [1, 1, 2, 2];
    AppendFour([], 1, 1, 2, 2);
    AppendFour(a, 2, 8, 8, 8);
    AppendFour(a + [2, 8, 8, 8], 4, 4, 2, 2);
    EmptyTable();
    assert a == [1, 1, 2, 2];
  }

  /** `MediaFragmentHeader::encode`: the 44 bytes, or why the metadata does not fit. */
  function EncodeFragment(h: FragmentHeader): Result<Bytes, MediaError> {
    if h.metadata.flags > U8_MAX then Failure(FlagsTooLarge(h.metadata.flags))
    else if h.metadata.durationMs > U16_MAX then Failure(DurationTooLarge(h.metadata.durationMs))
    else
      var delta :- EncodeDts(h.metadata);
      Success(EncodeFields(MEDIA_WIDTHS, FieldsOf(h, delta)))
  }

  /** `MediaFragmentHeader::decode` */
  function DecodeFragment(bytes: Bytes): Result<FragmentHeader, MediaError> {
    if |bytes| < MEDIA_HEADER_LEN then Failure(MediaError.HeaderTooShort(|bytes|))
    else
      MediaWidthsTotal();
      var v := DecodeFields(MEDIA_WIDTHS, bytes);
      MediaFieldsWithin(v);
      var dts :- DecodeDts(v[7], ToSigned(v[10]));
      Success(FragmentHeader(Metadata(v[5], v[6], v[7], dts, v[4], CodecOf(v[0]), v[1]), v[2], v[3], v[8], v[9]))
  }

  lemma MediaFieldsWithin(v: seq<nat>)
    requires Fits(MEDIA_WIDTHS, v)
    ensures |v| == 12 && v[0] <= U8_MAX && v[1] <= U8_MAX && v[2] <= U16_MAX && v[3] <= U16_MAX && v[4] <= U16_MAX
    ensures v[5] <= U64_MAX && v[6] <= U64_MAX && v[7] <= U64_MAX && v[8] <= U32_MAX && v[9] <= U32_MAX
    ensures v[10] <= U16_MAX && v[11] <= U16_MAX
  {
    Pow256Values();
    assert forall k | 0 <= k < 12 :: v[k] < Pow256(MEDIA_WIDTHS[k]);
  }

  lemma MediaFieldsFit(h: FragmentHeader, delta: i16)
    requires h.metadata.flags <= U8_MAX && h.metadata.durationMs <= U16_MAX
    ensures Fits(MEDIA_WIDTHS, FieldsOf(h, delta))
  {
    Pow256Values();
    var widths, fields := MEDIA_WIDTHS, FieldsOf(h, delta);
    assert |widths| == 12 == |fields|;
    assert forall k | 2 <= k < 5 :: widths[k] == 2 && fields[k] < 0x1_0000;
    assert forall k | 5 <= k < 8 :: widths[k] == 8 && fields[k] < 0x1_0000_0000_0000_0000;
  }

  /** What the compact header can hold. */
  predicate Compact(m: Metadata) {
    && m.flags <= U8_MAX
    && m.durationMs <= U16_MAX
    && (m.dtsMs.Some? ==> -0x7FFF <= m.dtsMs.value - m.ptsMs <= 0x7FFF)
  }

  /** A header is written exactly for compact metadata, and read back whatever follows it. */
  lemma FragmentRoundTrip(h: FragmentHeader, rest: Bytes)
    ensures EncodeFragment(h).Success? <==> Compact(h.metadata)
    ensures EncodeFragment(h).Success? ==>
              && |EncodeFragment(h).value| == MEDIA_HEADER_LEN
              && DecodeFragment(EncodeFragment(h).value + rest) == Success(h)
  {
    hide ToLE, FromLE, DecodeFields, EncodeFields, TotalWidth;
    if Compact(h.metadata) {
      var delta := EncodeDts(h.metadata).value;
      MediaFieldsFit(h, delta);
      MediaWidthsTotal();
      DecodeEncodeFields(MEDIA_WIDTHS, FieldsOf(h, delta), rest);
    }
  }

  /**
   Whatever can be read is compact, so it can be written again, and it is then read back the same.
   The bytes may differ: unknown codec numbers and the two reserved bytes are not kept.
   */
  lemma DecodedIsCompact(bytes: Bytes)
    requires DecodeFragment(bytes).Success?
    ensures var h := DecodeFragment(bytes).value;
            Compact(h.metadata) && DecodeFragment(EncodeFragment(h).value) == Success(h)
  {
    hide ToLE, FromLE, DecodeFields, EncodeFields, TotalWidth;
    MediaWidthsTotal();
    MediaFieldsWithin(DecodeFields(MEDIA_WIDTHS, bytes));
    var h := DecodeFragment(bytes).value;
    FragmentRoundTrip(h, []);
    assert EncodeFragment(h).value + [] == EncodeFragment(h).value;
  }

  /** Byte at which each field starts. */
  const MEDIA_STARTS: seq<nat> := [0, 1, 2, 4] + [6, 8, 16, 24] + [32, 36, 40, 42]

  /** The 16-bit two's complement integer at bytes 40 and 41. */
  function DtsOffset(bytes: Bytes): int
    requires |bytes| >= 42
  {
    var x := FromLE(bytes[40..42]);
    if x < 32_768 then x else x - 65_536
  }

  /** The wire layout: which bytes of a block each header field is. */
  lemma FragmentLayout(bytes: Bytes)
    requires DecodeFragment(bytes).Success?
    ensures |bytes| >= 44
    ensures var m := DecodeFragment(bytes).value.metadata;
            && (m.codec.H264? <==> bytes[0] == 1) && (m.codec.OpusCodec? <==> bytes[0] == 2)
            && (m.codec.Aac? <==> bytes[0] == 3) && (m.codec.DataCodec? <==> bytes[0] == 255)
            && m.flags == bytes[1] && m.durationMs == FromLE(bytes[6..8]) && m.streamId == FromLE(bytes[8..16])
            && m.sequence == FromLE(bytes[16..24]) && m.ptsMs == FromLE(bytes[24..32])
            && (if DtsOffset(bytes) == -32_768 then m.dtsMs.None?
                else m.dtsMs.Some? && m.dtsMs.value == m.ptsMs + DtsOffset(bytes))
    ensures var h := DecodeFragment(bytes).value;
            && h.fragmentIndex == FromLE(bytes[2..4]) && h.fragmentCount == FromLE(bytes[4..6])
            && h.accessUnitLen == FromLE(bytes[32..36]) && h.fragmentOffset == FromLE(bytes[36..40])
  {
    hide FromLE, DecodeFields, TotalWidth, Offset;
    MediaWidthsTotal();
    assert bytes[0..] == bytes;
    MediaFieldsWithin(DecodeFields(MEDIA_WIDTHS, bytes));
    FieldsAtStarts(0, MEDIA_WIDTHS, MEDIA_STARTS, bytes);
    SingleByte(bytes[0]);
    SingleByte(bytes[1]);
    assert bytes[0..1] == [bytes[0]] && bytes[1..2] == [bytes[1]];
  }

  /** A block is refused for being shorter than the header, or for a decode timestamp outside 64 bits. */
  lemma FragmentRefused(bytes: Bytes)
    ensures |bytes| < 44 ==> DecodeFragment(bytes) == Failure(MediaError.HeaderTooShort(|bytes|))
    ensures |bytes| >= 44 ==>
              var pts, offset := FromLE(bytes[24..32]), DtsOffset(bytes);
              DecodeFragment(bytes).Failure? <==> offset != -32_768 && !(0 <= pts + offset <= U64_MAX)
    ensures |bytes| >= 44 && DecodeFragment(bytes).Failure? ==>
              && FromLE(bytes[24..32]) <= U64_MAX && -32_768 < DtsOffset(bytes) <= 32_767
              && DecodeFragment(bytes).error == InvalidDtsDelta(FromLE(bytes[24..32]), DtsOffset(bytes))
  {
    hide FromLE, DecodeFields, TotalWidth, Offset;
    if |bytes| >= 44 {
      MediaWidthsTotal();
      assert bytes[0..] == bytes;
      MediaFieldsWithin(DecodeFields(MEDIA_WIDTHS, bytes));
      FieldsAtStarts(0, MEDIA_WIDTHS, MEDIA_STARTS, bytes);
    }
  }

  /** The bytes written for a header, and why one is not written: flags, then duration, then decode timestamp. */
  lemma FragmentWritten(h: FragmentHeader)
    ensures var m, r := h.metadata, EncodeFragment(h);
            if m.flags > 255 then r == Failure(FlagsTooLarge(m.flags))
            else if m.durationMs > 65_535 then r == Failure(DurationTooLarge(m.durationMs))
            else if m.dtsMs.Some? && !(-32_767 <= m.dtsMs.value - m.ptsMs <= 32_767) then
              r == Failure(DtsDeltaOutOfRange(m.ptsMs, m.dtsMs.value))
            else
              && r.Success? && |r.value| == 44
              && r.value[0] == (match m.codec
                                case Unknown => 0 case H264 => 1 case OpusCodec => 2 case Aac => 3 case DataCodec => 255)
              && r.value[1] == m.flags && DtsOffset(r.value) == (if m.dtsMs.None? then -32_768 else m.dtsMs.value - m.ptsMs)
              && FromLE(r.value[42..44]) == 0
  {
    hide FromLE, ToLE, DecodeFields, EncodeFields, TotalWidth, Offset;
    if Compact(h.metadata) {
      var bytes := EncodeFragment(h).value;
      var delta := EncodeDts(h.metadata).value;
      FragmentRoundTrip(h, []);
      MediaFieldsFit(h, delta);
      MediaWidthsTotal();
      DecodeEncodeFields(MEDIA_WIDTHS, FieldsOf(h, delta), []);
      assert bytes + [] == bytes && bytes[0..] == bytes;
      FieldsAtStarts(0, MEDIA_WIDTHS, MEDIA_STARTS, bytes);
      SingleByte(bytes[0]);
      SingleByte(bytes[1]);
      assert bytes[0..1] == [bytes[0]] && bytes[1..2] == [bytes[1]];
      assert MEDIA_STARTS[11] == 42 && MEDIA_WIDTHS[11] == 2 && FieldsOf(h, delta)[11] == 0;
    }
  }

  /** Writes the header over the front of a buffer, or leaves the buffer alone. */
  method EncodeFragmentInto(h: FragmentHeader, buffer: array<u8>) returns (r: Result<(), MediaError>)
    modifies buffer
    ensures buffer.Length < MEDIA_HEADER_LEN ==> r == Failure(MediaError.HeaderTooShort(buffer.Length))
    ensures buffer.Length >= MEDIA_HEADER_LEN ==> (r.Success? <==> Compact(h.metadata))
    ensures r.Failure? ==> buffer[..] == old(buffer[..])
    ensures r.Success? ==>
              EncodeFragment(h).Success? && buffer[..] == EncodeFragment(h).value + old(buffer[MEDIA_HEADER_LEN..])
  {
    hide ToLE, FromLE, DecodeFields, EncodeFields, TotalWidth, EncodeFragment, DecodeFragment;
    if buffer.Length < MEDIA_HEADER_LEN {
      return Failure(MediaError.HeaderTooShort(buffer.Length));
    }
    var bytes := EncodeFragment(h);
    FragmentRoundTrip(h, []);
    if bytes.Failure? {
      return Failure(bytes.error);
    }
    forall i | 0 <= i < MEDIA_HEADER_LEN {
      buffer[i] := bytes.value[i];
    }
    r := Success(());
  }
}
