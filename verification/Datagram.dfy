/**
 The RQD2 datagram: a 32-byte self-identifying header, one serialized RaptorQ packet, and for audio
 repairs an eight-byte session id trailer. The checksum covers the header up to its own field and
 everything behind the header.
 */
module Datagram {
  import opened Arithmetic
  import opened ByteCodec
  import opened MachineInts
  import opened Wrappers
  import Crc32

  /** "RQD2" */
  const MAGIC: Bytes := [0x52, 0x51, 0x44, 0x32]
  const VERSION: u8 := 2
  const KIND_RAPTORQ: u8 := 1
  const FLAG_PACKET_CRC32: u8 := 1
  const FLAG_AUDIO_SESSION_ID: u8 := 2
  const SESSION_ID_LEN := 8
  const HEADER_LEN := 32
  const PREFIX_LEN := 28
  const MAX_SOURCE_SYMBOLS_PER_BLOCK := 56_403

  datatype FecError =
    | HeaderTooShort(length: nat)
    | PacketTooShort(length: nat)
    | InvalidMagic(found: Bytes)
    | UnsupportedVersion(byte: nat)
    | UnsupportedHeaderLength(byte: nat)
    | UnsupportedPacketKind(byte: nat)
    | UnsupportedPacketFlags(byte: nat)
    | InvalidSourceSymbols(count: nat)
    | InvalidSymbolSize(size: nat)
    | InvalidTransferLength(size: nat)
    | SourceSymbolLimitExceeded(symbols: nat, max: nat)
    | SourceSymbolCountMismatch(declared: nat, required: nat)
    | PayloadLengthMismatch(expected: nat, actual: nat)
    | SymbolSizeMismatch(expected: nat, actual: nat)
    | UnsupportedSourceBlockNumber(number: nat)
    | InconsistentBlockGeometry(blockId: nat)
    | PacketCrc32Mismatch(stored: nat, computed: nat)
    | PayloadTooLong(length: nat)
    | PayloadTooLargeForBlock(length: nat, max: nat)
    | TransferLengthMismatch(declared: nat, length: nat)
    | RepairSourceTooLarge(length: nat, max: nat)
    | AdditionalRepairSymbolCount(count: nat, max: nat)
    | AdditionalRepairOutputTooLarge(length: nat, max: nat)
    | RepairSymbolIdExhausted(sourceSymbols: nat, nextRepairSymbol: nat, requested: nat)

  /** `validate_one_block_geometry` */
  function ValidateGeometry(transferLength: u32, sourceSymbols: u16, symbolSize: u16): Result<(), FecError> {
    if sourceSymbols == 0 then Failure(InvalidSourceSymbols(sourceSymbols))
    else if symbolSize == 0 then Failure(InvalidSymbolSize(symbolSize))
    else if transferLength == 0 then Failure(InvalidTransferLength(transferLength))
    else if sourceSymbols > MAX_SOURCE_SYMBOLS_PER_BLOCK then
      Failure(SourceSymbolLimitExceeded(sourceSymbols, MAX_SOURCE_SYMBOLS_PER_BLOCK))
    else
      var required := CeilDiv(transferLength, symbolSize);
      if required > MAX_SOURCE_SYMBOLS_PER_BLOCK then
        Failure(SourceSymbolLimitExceeded(required, MAX_SOURCE_SYMBOLS_PER_BLOCK))
      else if sourceSymbols != required then Failure(SourceSymbolCountMismatch(sourceSymbols, required))
      else Success(())
  }

  predicate ValidGeometry(transferLength: u32, sourceSymbols: u16, symbolSize: u16) {
    && transferLength > 0
    && symbolSize > 0
    && sourceSymbols == CeilDiv(transferLength, symbolSize) <= MAX_SOURCE_SYMBOLS_PER_BLOCK
  }

  lemma GeometryAccepted(transferLength: u32, sourceSymbols: u16, symbolSize: u16)
    ensures ValidateGeometry(transferLength, sourceSymbols, symbolSize).Success?
            <==> ValidGeometry(transferLength, sourceSymbols, symbolSize)
  {
    if transferLength > 0 && symbolSize > 0 {
      CeilDivCovers(transferLength, symbolSize);
    }
  }

  /** Magic, version and header length: the bytes every datagram starts with. */
  const FIXED: Bytes := MAGIC + [VERSION, HEADER_LEN]

  /** Kind, flags, block id, transfer length, packet sequence, source symbols, symbol size, payload length */
  const FIELD_WIDTHS: seq<nat> := [1, 1, 4, 4, 4, 2, 2, 4]

  lemma FieldWidthsTotal()
    ensures TotalWidth(FIELD_WIDTHS) == PREFIX_LEN - 6
  {
    assert FIELD_WIDTHS[1..] == [1, 4, 4, 4, 2, 2, 4] && FIELD_WIDTHS[1..][1..] == [4, 4, 4, 2, 2, 4];
    assert [4, 4, 4, 2, 2, 4][1..] == [4, 4, 2, 2, 4] && [4, 4, 2, 2, 4][1..] == [4, 2, 2, 4];
    assert [4, 2, 2, 4][1..] == [2, 2, 4] && [2, 2, 4][1..] == [2, 4] && [2, 4][1..] == [4] && [4][1..] == [];
  }

  datatype Header = Header(
    packetKind: u8, packetFlags: u8, blockId: u32, transferLength: u32, packetSequence: u32,
    sourceSymbols: u16, symbolSize: u16, payloadLen: u32, packetCrc32: u32)
  {
    predicate HasCrc() {
      packetFlags % 2 == 1
    }

    predicate HasSessionId() {
      packetFlags / 2 % 2 == 1
    }

    function ExtensionLen(): nat {
      if HasSessionId() then SESSION_ID_LEN else 0
    }

    /** `validate_fields` */
    function Validate(): Result<(), FecError> {
      if packetKind != KIND_RAPTORQ then Failure(UnsupportedPacketKind(packetKind))
      else if packetFlags > FLAG_PACKET_CRC32 + FLAG_AUDIO_SESSION_ID then Failure(UnsupportedPacketFlags(packetFlags))
      else ValidateGeometry(transferLength, sourceSymbols, symbolSize)
    }

    function Fields(): seq<nat> {
      [packetKind, packetFlags, blockId, transferLength, packetSequence, sourceSymbols, symbolSize, payloadLen]
    }

    /** The header without its checksum field. */
    function Prefix(): (bytes: Bytes)
      ensures |bytes| == PREFIX_LEN
    {
      FieldWidthsTotal();
      FIXED + EncodeFields(FIELD_WIDTHS, Fields())
    }

    function Encode(): Result<Bytes, FecError> {
      var _ :- Validate();
      Success(Prefix() + ToLE(packetCrc32, 4))
    }

    function ComputeCrc(payload: Bytes): Result<u32, FecError> {
      var expected := payloadLen + ExtensionLen();
      if |payload| != expected then Failure(PayloadLengthMismatch(expected, |payload|)) else
        var _ :- Validate();
        Success(Crc32.PacketChecksum(Prefix(), payload))
    }

    /** The serialized packet of a datagram whose length and checksum are right. */
    function Payload(datagram: Bytes): Result<Bytes, FecError> {
      if |datagram| < HEADER_LEN then Failure(HeaderTooShort(|datagram|)) else
        var expected := payloadLen + ExtensionLen();
        var wire := datagram[HEADER_LEN..];
        if |wire| != expected then Failure(PayloadLengthMismatch(expected, |wire|))
        else if HasCrc() then
          var actual :- ComputeCrc(wire);
          if actual != packetCrc32 then Failure(PacketCrc32Mismatch(packetCrc32, actual))
          else Success(wire[..payloadLen])
        else Success(wire[..payloadLen])
    }

    function AudioSessionId(datagram: Bytes): Result<Option<nat>, FecError> {
      var _ :- Payload(datagram);
      if !HasSessionId() then Success(None) else
        var start := HEADER_LEN + payloadLen;
        Success(Some(FromLE(datagram[start..start + SESSION_ID_LEN])))
    }
  }

  /** `DatagramFecHeader::decode` */
  function DecodeHeader(bytes: Bytes): Result<Header, FecError> {
    if |bytes| < HEADER_LEN then Failure(HeaderTooShort(|bytes|))
    else if bytes[..4] != MAGIC then Failure(InvalidMagic(bytes[..4]))
    else if bytes[4] != VERSION then Failure(UnsupportedVersion(bytes[4]))
    else if bytes[5] != HEADER_LEN then Failure(UnsupportedHeaderLength(bytes[5]))
    else
      var header := FieldsAt(bytes);
      var _ :- header.Validate();
      Success(header)
  }

  function FieldsAt(bytes: Bytes): Header
    requires |bytes| >= HEADER_LEN
  {
    FieldWidthsTotal();
    Pow256Values();
    var v := DecodeFields(FIELD_WIDTHS, bytes[6..]);
    Header(v[0], v[1], v[2], v[3], v[4], v[5], v[6], v[7], FromLE(bytes[PREFIX_LEN..HEADER_LEN]))
  }

  /** `DatagramFecHeader::raptorq` */
  function NewHeader(blockId: u32, transferLength: u32, packetSequence: u32, sourceSymbols: u16, symbolSize: u16,
                     payload: Bytes): Result<Header, FecError>
  {
    if |payload| > U32_MAX then Failure(PayloadTooLong(|payload|)) else
      var header := Header(KIND_RAPTORQ, FLAG_PACKET_CRC32, blockId, transferLength, packetSequence,
                           sourceSymbols, symbolSize, |payload|, 0);
      var crc :- header.ComputeCrc(payload);
      Success(header.(packetCrc32 := crc))
  }

  /** A packet behind its header, as every encoder of the crate emits it. */
  function WrapPacket(blockId: u32, transferLength: u32, packetSequence: u32, sourceSymbols: u16, symbolSize: u16,
                      serialized: Bytes): Result<Bytes, FecError>
  {
    var header :- NewHeader(blockId, transferLength, packetSequence, sourceSymbols, symbolSize, serialized);
    var bytes :- header.Encode();
    Success(bytes + serialized)
  }

  /** `attach_audio_session_id`: append the trailer, set its flag, seal again. */
  function AttachSessionId(datagram: Bytes, sessionId: u64): Result<Bytes, FecError> {
    var header :- DecodeHeader(datagram);
    var flagged := if header.HasSessionId() then header
                   else header.(packetFlags := header.packetFlags + FLAG_AUDIO_SESSION_ID);
    var extended := datagram + ToLE(sessionId, SESSION_ID_LEN);
    var crc :- flagged.ComputeCrc(extended[HEADER_LEN..]);
    var bytes :- flagged.(packetCrc32 := crc).Encode();
    Success(bytes + extended[HEADER_LEN..])
  }

  // ----- the header codec

  lemma HeaderFieldsFit(h: Header)
    ensures Fits(FIELD_WIDTHS, h.Fields())
  {
    Pow256Values();
  }

  /** A header written in front of anything is read back. */
  lemma HeaderRoundTrip(h: Header, rest: Bytes)
    requires h.Validate().Success?
    ensures h.Encode().Success? && |h.Encode().value| == HEADER_LEN
    ensures DecodeHeader(h.Encode().value + rest) == Success(h)
  {
    hide FromLE, ToLE, EncodeFields, DecodeFields, TotalWidth, ValidateGeometry;
    var crc, fields := ToLE(h.packetCrc32, 4), EncodeFields(FIELD_WIDTHS, h.Fields());
    var bytes := h.Encode().value + rest;
    FieldWidthsTotal();
    HeaderFieldsFit(h);
    Pow256Values();
    assert bytes[..6] == FIXED;
    assert bytes[..4] == bytes[..6][..4] == MAGIC;
    assert bytes[4] == FIXED[4] && bytes[5] == FIXED[5];
    assert bytes[6..] == fields + (crc + rest);
    assert bytes[PREFIX_LEN..HEADER_LEN] == crc;
    DecodeEncodeFields(FIELD_WIDTHS, h.Fields(), crc + rest);
    FromToLE(h.packetCrc32, 4);
  }

  /** Re-encoding a decoded header reproduces the bytes on the wire, so the checksum is over those. */
  lemma ReencodedHeader(bytes: Bytes)
    requires DecodeHeader(bytes).Success?
    ensures DecodeHeader(bytes).value.Prefix() == bytes[..PREFIX_LEN]
    ensures DecodeHeader(bytes).value.Encode() == Success(bytes[..HEADER_LEN])
  {
    hide FromLE, ToLE, EncodeFields, DecodeFields, TotalWidth, ValidateGeometry;
    var h := DecodeHeader(bytes).value;
    FieldWidthsTotal();
    EncodeDecodeFields(FIELD_WIDTHS, bytes[6..]);
    assert h.Fields() == DecodeFields(FIELD_WIDTHS, bytes[6..]);
    assert bytes[6..][..PREFIX_LEN - 6] == bytes[6..PREFIX_LEN];
    assert bytes[..6] == FIXED;
    assert bytes[..PREFIX_LEN] == bytes[..6] + bytes[6..PREFIX_LEN];
    ToFromLE(bytes[PREFIX_LEN..HEADER_LEN]);
    assert bytes[..HEADER_LEN] == bytes[..PREFIX_LEN] + bytes[PREFIX_LEN..HEADER_LEN];
  }

  /** Byte at which each field starts. */
  const FIELD_STARTS: seq<nat> := [6, 7, 8, 12, 16, 20, 22, 24]

  lemma FieldsFromBytes(bytes: Bytes)
    requires |bytes| >= HEADER_LEN
    ensures var h := FieldsAt(bytes);
            && h.packetKind == FromLE(bytes[6..7]) && h.packetFlags == FromLE(bytes[7..8])
            && h.blockId == FromLE(bytes[8..12]) && h.transferLength == FromLE(bytes[12..16])
            && h.packetSequence == FromLE(bytes[16..20]) && h.sourceSymbols == FromLE(bytes[20..22])
            && h.symbolSize == FromLE(bytes[22..24]) && h.payloadLen == FromLE(bytes[24..28])
            && h.packetCrc32 == FromLE(bytes[28..32])
  {
    hide FromLE, DecodeFields, TotalWidth, Offset;
    FieldWidthsTotal();
    FieldsAtStarts(6, FIELD_WIDTHS, FIELD_STARTS, bytes);
  }

  /** The wire layout: which bytes of a datagram each header field is. */
  lemma HeaderLayout(bytes: Bytes)
    requires DecodeHeader(bytes).Success?
    ensures var h := DecodeHeader(bytes).value;
            && |bytes| >= 32 && bytes[..6] == [0x52, 0x51, 0x44, 0x32, 2, 32]
            && h.packetKind == FromLE(bytes[6..7]) && h.packetFlags == FromLE(bytes[7..8])
            && h.blockId == FromLE(bytes[8..12]) && h.transferLength == FromLE(bytes[12..16])
            && h.packetSequence == FromLE(bytes[16..20]) && h.sourceSymbols == FromLE(bytes[20..22])
            && h.symbolSize == FromLE(bytes[22..24]) && h.payloadLen == FromLE(bytes[24..28])
            && h.packetCrc32 == FromLE(bytes[28..32])
  {
    hide FromLE, FieldsAt, ValidateGeometry;
    FieldsFromBytes(bytes);
    assert bytes[..6] == bytes[..4] + [bytes[4], bytes[5]];
  }

  /** K symbols of this size hold the object, and K - 1 do not. */
  predicate Holds(transferLength: nat, sourceSymbols: nat, symbolSize: nat) {
    transferLength > 0 && (sourceSymbols - 1) * symbolSize < transferLength <= sourceSymbols * symbolSize
  }

  lemma ValidGeometryHolds(transferLength: u32, sourceSymbols: u16, symbolSize: u16)
    ensures ValidGeometry(transferLength, sourceSymbols, symbolSize)
            <==> sourceSymbols <= 56_403 && Holds(transferLength, sourceSymbols, symbolSize)
  {
    if symbolSize > 0 && transferLength > 0 {
      CeilDivCovers(transferLength, symbolSize);
      CeilDivUnique(transferLength, symbolSize, sourceSymbols);
    } else if symbolSize == 0 {
      assert sourceSymbols * symbolSize == 0;
    }
  }

  lemma CeilDivUnique(a: nat, b: nat, n: nat)
    requires a > 0 && b > 0
    ensures CeilDiv(a, b) == n <==> (n - 1) * b < a <= n * b
  {
    CeilDivCovers(a, b);
    var q := CeilDiv(a, b);
    assert q * b == (q - 1) * b + b;
    if (n - 1) * b < a <= n * b {
      assert n * b == (n - 1) * b + b;
      if n < q {
        MulAtMost(n, q - 1, b);
      } else if q < n {
        MulAtMost(q, n - 1, b);
      }
    }
  }

  /**
   A header is accepted exactly for "RQD2" version 2 of length 32, kind 1, no flag but the two known,
   and a symbol count of at most 56,403 that fits length and symbol size.
   */
  lemma HeaderAccepted(bytes: Bytes)
    ensures DecodeHeader(bytes).Success? <==>
              && |bytes| >= 32 && bytes[..7] == [0x52, 0x51, 0x44, 0x32, 2, 32, 1] && bytes[7] <= 3
              && FromLE(bytes[20..22]) <= 56_403
              && Holds(FromLE(bytes[12..16]), FromLE(bytes[20..22]), FromLE(bytes[22..24]))
  {
    hide FromLE, FieldsAt, ValidateGeometry, ValidGeometry, Holds;
    if |bytes| >= 32 {
      FieldsFromBytes(bytes);
      KindAndFlags(bytes);
      var h := FieldsAt(bytes);
      GeometryAccepted(h.transferLength, h.sourceSymbols, h.symbolSize);
      ValidGeometryHolds(h.transferLength, h.sourceSymbols, h.symbolSize);
      assert bytes[..7] == bytes[..4] + [bytes[4], bytes[5], bytes[6]];
      assert bytes[..7] == [0x52, 0x51, 0x44, 0x32, 2, 32, 1] ==> bytes[..4] == bytes[..7][..4];
    }
  }

  /** Why bytes are refused, in the order of the checks. */
  lemma HeaderRefused(bytes: Bytes)
    ensures var r := DecodeHeader(bytes);
            if |bytes| < 32 then r == Failure(HeaderTooShort(|bytes|))
            else if bytes[..4] != [0x52, 0x51, 0x44, 0x32] then r == Failure(InvalidMagic(bytes[..4]))
            else if bytes[4] != 2 then r == Failure(UnsupportedVersion(bytes[4]))
            else if bytes[5] != 32 then r == Failure(UnsupportedHeaderLength(bytes[5]))
            else if bytes[6] != 1 then r == Failure(UnsupportedPacketKind(bytes[6]))
            else if bytes[7] > 3 then r == Failure(UnsupportedPacketFlags(bytes[7]))
            else
              var (length, k, size) := (FromLE(bytes[12..16]), FromLE(bytes[20..22]), FromLE(bytes[22..24]));
              && (k == 0 ==> r == Failure(InvalidSourceSymbols(0)))
              && (k > 0 && size == 0 ==> r == Failure(InvalidSymbolSize(0)))
              && (k > 0 && size > 0 && length == 0 ==> r == Failure(InvalidTransferLength(0)))
              && (k > 56_403 && size > 0 && length > 0 ==> r == Failure(SourceSymbolLimitExceeded(k, 56_403)))
              && (0 < k <= 56_403 && size > 0 && length > 56_403 * size ==>
                    exists n :: Holds(length, n, size) && r == Failure(SourceSymbolLimitExceeded(n, 56_403)))
              && (0 < k <= 56_403 && 0 < length <= 56_403 * size && !Holds(length, k, size) ==>
                    exists n :: Holds(length, n, size) && r == Failure(SourceSymbolCountMismatch(k, n)))
  {
    hide FromLE, FieldsAt, ValidateGeometry, Holds;
    if |bytes| >= 32 {
      FieldsFromBytes(bytes);
      KindAndFlags(bytes);
      var h := FieldsAt(bytes);
      GeometryRefused(h.transferLength, h.sourceSymbols, h.symbolSize);
    }
  }

  lemma GeometryRefused(length: u32, k: u16, size: u16)
    ensures var r := ValidateGeometry(length, k, size);
            && (k == 0 ==> r == Failure(InvalidSourceSymbols(0)))
            && (k > 0 && size == 0 ==> r == Failure(InvalidSymbolSize(0)))
            && (k > 0 && size > 0 && length == 0 ==> r == Failure(InvalidTransferLength(0)))
            && (k > 56_403 && size > 0 && length > 0 ==> r == Failure(SourceSymbolLimitExceeded(k, 56_403)))
            && (0 < k <= 56_403 && size > 0 && length > 56_403 * size ==>
                  exists n :: Holds(length, n, size) && r == Failure(SourceSymbolLimitExceeded(n, 56_403)))
            && (0 < k <= 56_403 && 0 < length <= 56_403 * size && !Holds(length, k, size) ==>
                  exists n :: Holds(length, n, size) && r == Failure(SourceSymbolCountMismatch(k, n)))
  {
    if k > 0 && size > 0 && length > 0 {
      var n := CeilDiv(length, size);
      CeilDivCovers(length, size);
      CeilDivUnique(length, size, n);
      CeilDivUnique(length, size, k);
      assert Holds(length, n, size);
      if n <= 56_403 {
        MulAtMost(n, 56_403, size);
      } else {
        MulAtMost(56_403, n - 1, size);
      }
    }
  }

  /** Writes a header over the front of a buffer, or leaves the buffer alone. */
  method EncodeInto(h: Header, buffer: array<u8>) returns (r: Result<(), FecError>)
    modifies buffer
    ensures buffer.Length < HEADER_LEN ==> r == Failure(HeaderTooShort(buffer.Length))
    ensures buffer.Length >= HEADER_LEN ==> r == h.Validate()
    ensures r.Failure? ==> buffer[..] == old(buffer[..])
    ensures r.Success? ==> buffer[..] == h.Encode().value + old(buffer[HEADER_LEN..])
    ensures r.Success? ==> DecodeHeader(buffer[..]) == Success(h)
  {
    if buffer.Length < HEADER_LEN {
      return Failure(HeaderTooShort(buffer.Length));
    }
    r := h.Validate();
    if r.Success? {
      var bytes := h.Encode().value;
      HeaderRoundTrip(h, buffer[HEADER_LEN..]);
      forall i | 0 <= i < HEADER_LEN {
        buffer[i] := bytes[i];
      }
    }
  }

  // ----- acceptance

  /**
   A decoded header accepts exactly the datagrams of the declared length whose stored checksum is
   the checksum of the bytes around it, read as one piece.
   */
  lemma PayloadAccepted(datagram: Bytes)
    requires DecodeHeader(datagram).Success?
    ensures var h := DecodeHeader(datagram).value;
            h.Payload(datagram).Success? <==>
            && |datagram| == 32 + h.payloadLen + (if h.packetFlags / 2 % 2 == 1 then 8 else 0)
            && (h.packetFlags % 2 == 1 ==> FromLE(datagram[28..32]) == Crc32.Checksum(datagram[..28] + datagram[32..]))
    ensures var h := DecodeHeader(datagram).value;
            h.Payload(datagram).Success? ==>
              && h.Payload(datagram).value == datagram[32..32 + h.payloadLen]
              && h.AudioSessionId(datagram)
                 == Success(if h.packetFlags / 2 % 2 == 1 then Some(FromLE(datagram[32 + h.payloadLen..])) else None)
    ensures var h := DecodeHeader(datagram).value;
            h.Payload(datagram).Failure? ==>
              var expected := h.payloadLen + (if h.packetFlags / 2 % 2 == 1 then 8 else 0);
              h.Payload(datagram).error
              == if |datagram| - 32 != expected then PayloadLengthMismatch(expected, |datagram| - 32)
                 else PacketCrc32Mismatch(FromLE(datagram[28..32]), Crc32.Checksum(datagram[..28] + datagram[32..]))
  {
    hide FromLE, Crc32.Update, ValidateGeometry, DecodeHeader, Header.Prefix;
    assert |datagram| >= 32 && DecodeHeader(datagram).value == FieldsAt(datagram)
           && DecodeHeader(datagram).value.Validate().Success? by { DecodedIsValid(datagram); }
    FieldsFromBytes(datagram);
    var h := DecodeHeader(datagram).value;
    ReencodedHeader(datagram);
    Crc32.SplitUpdate(datagram[..PREFIX_LEN], datagram[HEADER_LEN..]);
    var start := 32 + h.payloadLen;
    assert |datagram| == start + 8 ==> datagram[start..start + 8] == datagram[start..];
  }

  lemma DecodedIsValid(bytes: Bytes)
    requires DecodeHeader(bytes).Success?
    ensures |bytes| >= 32 && DecodeHeader(bytes).value == FieldsAt(bytes) && DecodeHeader(bytes).value.Validate().Success?
  {
    hide FieldsAt, ValidateGeometry;
  }

  /** A wrapped packet decodes to its own header and gives the packet back. */
  lemma WrapRoundTrip(blockId: u32, transferLength: u32, packetSequence: u32, sourceSymbols: u16, symbolSize: u16,
                      serialized: Bytes)
    requires ValidGeometry(transferLength, sourceSymbols, symbolSize)
    requires |serialized| <= U32_MAX
    ensures var wrapped := WrapPacket(blockId, transferLength, packetSequence, sourceSymbols, symbolSize, serialized);
            && wrapped.Success?
            && |wrapped.value| == HEADER_LEN + |serialized|
            && DecodeHeader(wrapped.value).Success?
            && var h := DecodeHeader(wrapped.value).value;
            && h == Header(1, 1, blockId, transferLength, packetSequence, sourceSymbols, symbolSize, |serialized|, h.packetCrc32)
            && wrapped.value[32..] == serialized
            && h.Payload(wrapped.value) == Success(serialized)
            && h.AudioSessionId(wrapped.value) == Success(None)
  {
    hide Crc32.PacketChecksum, FromLE, ToLE, EncodeFields, FieldsAt, ValidateGeometry;
    GeometryAccepted(transferLength, sourceSymbols, symbolSize);
    var bare := Header(KIND_RAPTORQ, FLAG_PACKET_CRC32, blockId, transferLength, packetSequence,
                       sourceSymbols, symbolSize, |serialized|, 0);
    var crc := Crc32.PacketChecksum(bare.Prefix(), serialized);
    var h := bare.(packetCrc32 := crc);
    assert h.Fields() == bare.Fields();
    HeaderRoundTrip(h, serialized);
    var wrapped := h.Encode().value + serialized;
    assert wrapped[HEADER_LEN..] == serialized;
    assert serialized[..|serialized|] == serialized;
  }

  /** Attaching a session id keeps the packet and every header field but flag and checksum. */
  lemma AttachRoundTrip(datagram: Bytes, sessionId: u64)
    requires DecodeHeader(datagram).Success?
    requires var h := DecodeHeader(datagram).value; h.packetFlags == FLAG_PACKET_CRC32 && h.Payload(datagram).Success?
    ensures var before := DecodeHeader(datagram).value;
            var attached := AttachSessionId(datagram, sessionId);
            && attached.Success?
            && |attached.value| == |datagram| + SESSION_ID_LEN
            && DecodeHeader(attached.value).Success?
            && var h := DecodeHeader(attached.value).value;
            && h == before.(packetFlags := 3, packetCrc32 := h.packetCrc32)
            && attached.value[32..] == datagram[32..] + ToLE(sessionId, 8)
            && h.Payload(attached.value) == before.Payload(datagram)
            && h.AudioSessionId(attached.value) == Success(Some(sessionId))
  {
    hide Crc32.PacketChecksum, FromLE, ToLE, EncodeFields, FieldsAt, Header.Prefix, ValidateGeometry;
    var before := DecodeHeader(datagram).value;
    var flagged := before.(packetFlags := FLAG_PACKET_CRC32 + FLAG_AUDIO_SESSION_ID);
    var trailer := ToLE(sessionId, SESSION_ID_LEN);
    var packet := datagram[HEADER_LEN..];
    assert (datagram + trailer)[HEADER_LEN..] == packet + trailer;
    assert packet[..before.payloadLen] == packet;
    var h := SealRoundTrip(flagged, packet, trailer);
    Pow256Values();
    FromToLE(sessionId, SESSION_ID_LEN);
  }

  /** Sealing a header over a packet and a trailer: both are read back. */
  lemma SealRoundTrip(bare: Header, packet: Bytes, trailer: Bytes) returns (h: Header)
    requires bare.Validate().Success? && bare.HasCrc() && bare.HasSessionId()
    requires |packet| == bare.payloadLen && |trailer| == SESSION_ID_LEN
    ensures bare.ComputeCrc(packet + trailer) == Success(h.packetCrc32)
    ensures h == bare.(packetCrc32 := h.packetCrc32) && h.Encode().Success?
    ensures var sealed := h.Encode().value + (packet + trailer);
            && DecodeHeader(sealed) == Success(h)
            && |sealed| == HEADER_LEN + |packet| + SESSION_ID_LEN
            && h.Payload(sealed) == Success(packet)
            && h.AudioSessionId(sealed) == Success(Some(FromLE(trailer)))
  {
    hide Crc32.PacketChecksum, FromLE, ToLE, EncodeFields, FieldsAt, ValidateGeometry;
    h := bare.(packetCrc32 := Crc32.PacketChecksum(bare.Prefix(), packet + trailer));
    assert h.Fields() == bare.Fields();
    HeaderRoundTrip(h, packet + trailer);
    var sealed := h.Encode().value + (packet + trailer);
    assert sealed[HEADER_LEN..] == packet + trailer;
    assert (packet + trailer)[..|packet|] == packet;
    assert sealed[HEADER_LEN + |packet|..HEADER_LEN + |packet| + SESSION_ID_LEN] == trailer;
  }

  // ----- corruption

  /** Two byte strings that differ, and only inside `at..at + n`. */
  ghost predicate DifferWithin(a: Bytes, b: Bytes, at: nat, n: nat) {
    && |a| == |b| && at + n <= |a| && a != b
    && a[..at] == b[..at] && a[at + n..] == b[at + n..]
  }

  lemma BurstSplit(a: Bytes, b: Bytes, at: nat, n: nat)
    requires DifferWithin(a, b, at, n)
    ensures a[at..at + n] != b[at..at + n]
    ensures a == a[..at] + a[at..at + n] + a[at + n..]
    ensures b == a[..at] + b[at..at + n] + a[at + n..]
  {
  }

  lemma BurstChangesChecksum(prefix: Bytes, a: Bytes, b: Bytes, at: nat, n: nat)
    requires DifferWithin(a, b, at, n) && n <= 4
    ensures Crc32.PacketChecksum(prefix, a) != Crc32.PacketChecksum(prefix, b)
  {
    BurstSplit(a, b, at, n);
    Crc32.BurstChangesChecksum(prefix, a[..at], a[at..at + n], b[at..at + n], a[at + n..]);
  }

  lemma BurstBehindHeader(a: Bytes, b: Bytes, at: nat, n: nat)
    requires DifferWithin(a, b, at, n) && HEADER_LEN <= at
    ensures a[..HEADER_LEN] == b[..HEADER_LEN]
    ensures DifferWithin(a[HEADER_LEN..], b[HEADER_LEN..], at - HEADER_LEN, n)
  {
    assert a[..HEADER_LEN] == a[..at][..HEADER_LEN] && b[..HEADER_LEN] == b[..at][..HEADER_LEN];
    var x, y := a[HEADER_LEN..], b[HEADER_LEN..];
    assert x[..at - HEADER_LEN] == a[..at][HEADER_LEN..] && y[..at - HEADER_LEN] == b[..at][HEADER_LEN..];
    assert x[at - HEADER_LEN + n..] == a[at + n..] && y[at - HEADER_LEN + n..] == b[at + n..];
    assert a == a[..HEADER_LEN] + x && b == b[..HEADER_LEN] + y;
  }

  /**
   Altering any run of at most four consecutive bytes behind the header of an accepted, checksummed
   datagram makes the receiver report a checksum mismatch.
   */
  lemma PayloadBurstRejected(sent: Bytes, received: Bytes, at: nat, n: nat)
    requires DecodeHeader(sent).Success?
    requires DecodeHeader(sent).value.HasCrc() && DecodeHeader(sent).value.Payload(sent).Success?
    requires DifferWithin(sent, received, at, n) && HEADER_LEN <= at && n <= 4
    ensures DecodeHeader(received) == DecodeHeader(sent)
    ensures DecodeHeader(sent).value.Payload(received).Failure?
            && DecodeHeader(sent).value.Payload(received).error.PacketCrc32Mismatch?
  {
    hide Crc32.PacketChecksum, FieldsAt, Header.Prefix, ValidateGeometry;
    BurstBehindHeader(sent, received, at, n);
    HeaderOnlyFromFront(sent, received);
    var h := DecodeHeader(sent).value;
    SealChecked(h, sent);
    SealChecked(h, received);
    BurstChangesChecksum(h.Prefix(), sent[HEADER_LEN..], received[HEADER_LEN..], at - HEADER_LEN, n);
  }

  lemma SealChecked(h: Header, datagram: Bytes)
    requires h.HasCrc() && h.Validate().Success?
    requires |datagram| == HEADER_LEN + h.payloadLen + h.ExtensionLen()
    ensures var computed := Crc32.PacketChecksum(h.Prefix(), datagram[HEADER_LEN..]);
            if computed == h.packetCrc32 then h.Payload(datagram).Success?
            else h.Payload(datagram) == Failure(PacketCrc32Mismatch(h.packetCrc32, computed))
  {
  }

  lemma HeaderOnlyFromFront(a: Bytes, b: Bytes)
    requires |a| >= HEADER_LEN && |b| >= HEADER_LEN && a[..HEADER_LEN] == b[..HEADER_LEN]
    ensures DecodeHeader(a) == DecodeHeader(b)
  {
    assert forall i | 0 <= i < HEADER_LEN :: a[i] == a[..HEADER_LEN][i] == b[i];
    assert a[..4] == b[..4];
    FieldWidthsTotal();
    DecodeFieldsOnlyFromFront(FIELD_WIDTHS, a[6..], b[6..]);
    assert a[6..][..PREFIX_LEN - 6] == b[6..][..PREFIX_LEN - 6];
    assert a[PREFIX_LEN..HEADER_LEN] == b[PREFIX_LEN..HEADER_LEN];
  }

  lemma DecodeFieldsOnlyFromFront(widths: seq<nat>, a: Bytes, b: Bytes)
    requires |a| >= TotalWidth(widths) && |b| >= TotalWidth(widths)
    ensures a[..TotalWidth(widths)] == b[..TotalWidth(widths)] ==> DecodeFields(widths, a) == DecodeFields(widths, b)
  {
    var n := TotalWidth(widths);
    if a[..n] == b[..n] {
      EncodeDecodeFields(widths, a);
      EncodeDecodeFields(widths, b);
      assert EncodeFields(widths, DecodeFields(widths, a)) + [] == EncodeFields(widths, DecodeFields(widths, b)) + [];
      DecodeEncodeFields(widths, DecodeFields(widths, a), []);
      DecodeEncodeFields(widths, DecodeFields(widths, b), []);
    }
  }

  /** The checksummed bytes of two datagrams that differ within their prefixes. */
  lemma BurstInPrefix(a: Bytes, b: Bytes, at: nat, n: nat)
    requires DifferWithin(a, b, at, n) && at + n <= PREFIX_LEN && |a| >= HEADER_LEN
    ensures a[PREFIX_LEN..] == b[PREFIX_LEN..]
    ensures DifferWithin(a[..PREFIX_LEN] + a[HEADER_LEN..], b[..PREFIX_LEN] + b[HEADER_LEN..], at, n)
  {
    assert a[PREFIX_LEN..] == a[at + n..][PREFIX_LEN - at - n..] && b[PREFIX_LEN..] == b[at + n..][PREFIX_LEN - at - n..];
    var x, y := a[..PREFIX_LEN] + a[HEADER_LEN..], b[..PREFIX_LEN] + b[HEADER_LEN..];
    assert a[HEADER_LEN..] == a[PREFIX_LEN..][HEADER_LEN - PREFIX_LEN..];
    assert b[HEADER_LEN..] == b[PREFIX_LEN..][HEADER_LEN - PREFIX_LEN..];
    assert x[..at] == a[..at] && y[..at] == b[..at];
    assert a[at + n..PREFIX_LEN] == a[at + n..][..PREFIX_LEN - at - n];
    assert b[at + n..PREFIX_LEN] == b[at + n..][..PREFIX_LEN - at - n];
    assert x[at + n..] == a[at + n..PREFIX_LEN] + a[HEADER_LEN..];
    assert y[at + n..] == b[at + n..PREFIX_LEN] + b[HEADER_LEN..];
    assert x != y by {
      assert a == a[..PREFIX_LEN] + a[PREFIX_LEN..] && b == b[..PREFIX_LEN] + b[PREFIX_LEN..];
      assert a[..PREFIX_LEN] == x[..PREFIX_LEN] && b[..PREFIX_LEN] == y[..PREFIX_LEN];
    }
  }

  /**
   The same inside the header, as long as what arrives still decodes with the checksum flag set:
   clearing that flag switches the check off.
   */
  lemma HeaderBurstRejected(sent: Bytes, received: Bytes, at: nat, n: nat)
    requires DecodeHeader(sent).Success? && DecodeHeader(received).Success?
    requires DecodeHeader(sent).value.HasCrc() && DecodeHeader(received).value.HasCrc()
    requires DecodeHeader(sent).value.Payload(sent).Success?
    requires DifferWithin(sent, received, at, n) && at + n <= PREFIX_LEN && n <= 4
    ensures DecodeHeader(received).value.Payload(received).Failure?
  {
    hide Crc32.PacketChecksum, Crc32.Checksum, FromLE, FieldsAt, Header.Prefix, Header.Payload, ValidateGeometry;
    BurstInPrefix(sent, received, at, n);
    var x, y := sent[..PREFIX_LEN] + sent[HEADER_LEN..], received[..PREFIX_LEN] + received[HEADER_LEN..];
    Crc32.SplitUpdate([], x);
    Crc32.SplitUpdate([], y);
    assert [] + x == x && [] + y == y;
    BurstChangesChecksum([], x, y, at, n);
    assert sent[PREFIX_LEN..HEADER_LEN] == sent[PREFIX_LEN..][..4] == received[PREFIX_LEN..HEADER_LEN];
    PayloadAccepted(sent);
    PayloadAccepted(received);
  }

  // ----- where the checksum is switched off

  /** Kind and flags are the single bytes 6 and 7. */
  lemma KindAndFlags(bytes: Bytes)
    requires |bytes| >= HEADER_LEN
    ensures FieldsAt(bytes).packetKind == bytes[6] && FieldsAt(bytes).packetFlags == bytes[7]
  {
    hide FieldsAt, FromLE;
    FieldsFromBytes(bytes);
    SingleByte(bytes[6]);
    SingleByte(bytes[7]);
    assert bytes[6..7] == [bytes[6]] && bytes[7..8] == [bytes[7]];
  }

  lemma SliceBehind(a: Bytes, b: Bytes, i: nat, j: nat)
    requires |a| == |b| && 11 <= i <= j <= |a| && a[11..] == b[11..]
    ensures a[i..j] == b[i..j]
  {
    forall k | i <= k < j ensures a[k] == b[k] {
      assert a[k] == a[11..][k - 11];
    }
  }

  /** What lies from byte 11 on decides every field but kind, flags and block id. */
  lemma FieldsBehind(a: Bytes, b: Bytes)
    requires |a| == |b| >= HEADER_LEN && a[11..] == b[11..]
    ensures var f := FieldsAt(a);
            FieldsAt(b) == f.(packetKind := b[6], packetFlags := b[7], blockId := FieldsAt(b).blockId)
  {
    hide FieldsAt, FromLE;
    FieldsFromBytes(a);
    FieldsFromBytes(b);
    KindAndFlags(b);
    forall i, j | 11 <= i <= j <= |a| ensures a[i..j] == b[i..j] {
      SliceBehind(a, b, i, j);
    }
  }

  lemma DecodedIs(bytes: Bytes)
    requires DecodeHeader(bytes).Success?
    ensures |bytes| >= HEADER_LEN && DecodeHeader(bytes).value == FieldsAt(bytes)
    ensures FieldsAt(bytes).packetKind == bytes[6] == 1 && FieldsAt(bytes).packetFlags == bytes[7] <= 3
    ensures bytes[..7] == FIXED + [1]
  {
    hide FieldsAt, ValidateGeometry;
    KindAndFlags(bytes);
    assert bytes[..7] == bytes[..4] + [bytes[4], bytes[5], bytes[6]];
  }

  /** The checksum flag cleared, the bytes before it as they were. */
  ghost predicate FlagCleared(sent: Bytes, received: Bytes) {
    |sent| == |received| >= HEADER_LEN && received[..7] == sent[..7] && sent[7] > 0 && received[7] == sent[7] - 1
  }

  lemma SameOutside(a: Bytes, b: Bytes, at: nat, n: nat, i: nat)
    requires DifferWithin(a, b, at, n) && i < |a| && (i < at || at + n <= i)
    ensures a[i] == b[i]
  {
    if i < at {
      assert a[i] == a[..at][i];
    } else {
      assert a[i] == a[at + n..][i - at - n];
    }
  }

  /** A burst that reaches the flags byte stays within bytes 4 to 10. */
  lemma BurstAtFlags(sent: Bytes, received: Bytes, at: nat, n: nat)
    requires DifferWithin(sent, received, at, n) && n <= 4 && |sent| >= HEADER_LEN && sent[7] != received[7]
    ensures sent[11..] == received[11..]
  {
    if at > 7 || at + n <= 7 {
      SameOutside(sent, received, at, n, 7);
    }
    forall i | 11 <= i < |sent| ensures sent[i] == received[i] {
      SameOutside(sent, received, at, n, i);
    }
  }

  /** With the flag cleared and everything from byte 11 on untouched, the packet is accepted as it was. */
  lemma ClearedIsAccepted(sent: Bytes, received: Bytes)
    requires DecodeHeader(sent).Success?
    requires DecodeHeader(sent).value.HasCrc() && DecodeHeader(sent).value.Payload(sent).Success?
    requires FlagCleared(sent, received) && sent[11..] == received[11..]
    ensures DecodeHeader(received).Success?
    ensures DecodeHeader(received).value
            == DecodeHeader(sent).value.(packetFlags := received[7], blockId := FieldsAt(received).blockId)
    ensures DecodeHeader(received).value.Payload(received) == DecodeHeader(sent).value.Payload(sent)
  {
    hide FieldsAt, FromLE, ValidateGeometry, Header.ComputeCrc;
    KindAndFlags(sent);
    KindAndFlags(received);
    FieldsBehind(sent, received);
    assert forall i | 0 <= i < 7 :: received[i] == received[..7][i] == sent[..7][i] == sent[i];
    assert received[..4] == received[..7][..4] == sent[..7][..4] == sent[..4];
    assert sent[HEADER_LEN..] == sent[11..][HEADER_LEN - 11..] == received[HEADER_LEN..];
  }

  /** Only with the flag cleared does a corrupted header pass. */
  lemma AcceptedIsCleared(sent: Bytes, received: Bytes, at: nat, n: nat)
    requires DecodeHeader(sent).Success? && DecodeHeader(received).Success?
    requires DecodeHeader(sent).value.HasCrc() && DecodeHeader(sent).value.Payload(sent).Success?
    requires DifferWithin(sent, received, at, n) && at + n <= PREFIX_LEN && n <= 4
    requires DecodeHeader(received).value.Payload(received).Success?
    ensures FlagCleared(sent, received)
  {
    hide FieldsAt, FromLE, ValidateGeometry, Header.ComputeCrc, Header.Payload, DecodeHeader, DifferWithin;
    DecodedIs(sent);
    DecodedIs(received);
    PayloadAccepted(sent);
    PayloadAccepted(received);
    SameLength(sent, received, at, n);
    if DecodeHeader(received).value.HasCrc() {
      HeaderBurstRejected(sent, received, at, n);
    } else {
      hide Header.HasCrc, Header.HasSessionId, Header.ExtensionLen;
      OnlyCrcCleared(DecodeHeader(sent).value, DecodeHeader(received).value);
      BurstAtFlags(sent, received, at, n);
      FieldsBehind(sent, received);
    }
  }

  lemma OnlyCrcCleared(h: Header, h': Header)
    requires h.packetFlags <= 3 && h'.packetFlags <= 3 && h.HasCrc() && !h'.HasCrc()
    ensures h.packetFlags != h'.packetFlags
    ensures h.ExtensionLen() == h'.ExtensionLen() ==> h.packetFlags > 0 && h'.packetFlags == h.packetFlags - 1
  {
  }

  lemma SameLength(a: Bytes, b: Bytes, at: nat, n: nat)
    requires DifferWithin(a, b, at, n)
    ensures |a| == |b|
  {
  }

  /**
   Exactly which corruptions of at most four consecutive header bytes of an accepted, checksummed
   datagram go through: those that clear the checksum flag and touch nothing before it. Besides the
   flag only three bytes of the block id can have changed; the packet is taken as it was.
   */
  lemma HeaderBurstAccepted(sent: Bytes, received: Bytes, at: nat, n: nat)
    requires DecodeHeader(sent).Success?
    requires DecodeHeader(sent).value.HasCrc() && DecodeHeader(sent).value.Payload(sent).Success?
    requires DifferWithin(sent, received, at, n) && at + n <= PREFIX_LEN && n <= 4
    ensures DecodeHeader(received).Success? && DecodeHeader(received).value.Payload(received).Success?
            <==> FlagCleared(sent, received)
    ensures FlagCleared(sent, received) ==>
              && received[11..] == sent[11..]
              && DecodeHeader(received).value
                 == DecodeHeader(sent).value.(packetFlags := received[7], blockId := FieldsAt(received).blockId)
              && DecodeHeader(received).value.Payload(received) == DecodeHeader(sent).value.Payload(sent)
  {
    hide FieldsAt, FromLE, ValidateGeometry, Header.ComputeCrc, Header.Payload, DecodeHeader, DifferWithin;
    if FlagCleared(sent, received) {
      BurstAtFlags(sent, received, at, n);
      ClearedIsAccepted(sent, received);
    } else if DecodeHeader(received).Success? && DecodeHeader(received).value.Payload(received).Success? {
      AcceptedIsCleared(sent, received, at, n);
    }
  }

  /** The same corruptions in terms of the header that arrives. */
  lemma HeaderBurstDecoded(sent: Bytes, received: Bytes, at: nat, n: nat)
    requires DecodeHeader(sent).Success? && DecodeHeader(received).Success?
    requires DecodeHeader(sent).value.HasCrc() && DecodeHeader(sent).value.Payload(sent).Success?
    requires DifferWithin(sent, received, at, n) && at + n <= PREFIX_LEN && n <= 4
    ensures var h := DecodeHeader(received).value;
            h.Payload(received).Success? <==> !h.HasCrc() && |received| == HEADER_LEN + h.payloadLen + h.ExtensionLen()
  {
    hide FieldsAt, ValidateGeometry, DecodeHeader;
    PayloadAccepted(received);
    if DecodeHeader(received).value.HasCrc() {
      HeaderBurstRejected(sent, received, at, n);
    }
  }

  /** The datagram with its checksum flag cleared and the three low bytes of its block id replaced. */
  function Relabelled(sent: Bytes, a: u8, b: u8, c: u8): Bytes
    requires |sent| >= HEADER_LEN && sent[7] > 0
  {
    sent[..7] + [sent[7] - 1, a, b, c] + sent[11..]
  }

  /**
   The hole in the checksum: every accepted, checksummed datagram still passes, with its packet, once
   the flag is cleared, under any block id with the same highest byte.
   */
  lemma ClearedFlagRelabels(sent: Bytes, a: u8, b: u8, c: u8)
    requires DecodeHeader(sent).Success?
    requires DecodeHeader(sent).value.HasCrc() && DecodeHeader(sent).value.Payload(sent).Success?
    ensures |sent| >= HEADER_LEN && sent[7] > 0
    ensures var received := Relabelled(sent, a, b, c);
            && DecodeHeader(received).Success?
            && DecodeHeader(received).value.blockId == FromLE([a, b, c, sent[11]])
            && DecodeHeader(received).value.Payload(received) == DecodeHeader(sent).value.Payload(sent)
  {
    hide FieldsAt, FromLE, ValidateGeometry, Header.ComputeCrc, Header.Payload, DecodeHeader;
    DecodedIs(sent);
    var received := Relabelled(sent, a, b, c);
    ClearedIsAccepted(sent, received);
    DecodedIs(received);
    FieldsFromBytes(received);
    assert received[8..12] == [a, b, c, sent[11]];
  }
}
