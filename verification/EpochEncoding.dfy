/**
 The multichannel audio encoder: one epoch in, its source datagrams followed by its repair datagrams
 out, none above the datagram budget.
 */
module EpochEncoding {
  import opened AudioTypes
  import opened ByteCodec
  import opened Collections
  import opened Datagram
  import opened EpochSharding
  import opened FecDecoding
  import opened FecEncoding
  import opened Geometry
  import opened MachineInts
  import opened RaptorQ
  import opened Wrappers
  import ShardHeaders

  datatype Role = SourceRole(sourceIndex: u16) | RepairRole(encodingSymbolId: u32)

  datatype AudioDatagram = AudioDatagram(blockId: u32, packetSequence: u32, role: Role, payload: Bytes)

  datatype EncodedEpoch = EncodedEpoch(
    sessionId: u64, configGeneration: u32, epochId: u64, ptsSamples: u64, sampleRate: u32, frameCount: u32,
    blockId: u32, sourceSymbols: u16, repairSymbols: u32, symbolSize: u16, datagrams: seq<AudioDatagram>)

  /** One epoch on its way: how it was cut, and where its block starts in the flow. */
  datatype SentBlock = SentBlock(cut: Cut, blockId: u32, packetSequence: u32, repairSymbols: u32) {
    ghost predicate Valid() {
      cut.Encodable() && cut.Shards() + repairSymbols <= ESI_LIMIT
    }

    function Datagrams(): nat
      requires cut.fragment > 0
    {
      cut.Shards() + repairSymbols
    }

    function Profile(): FecEncoding.Profile
      requires cut.Valid()
    {
      ObjectSize(cut);
      FecEncoding.Profile(blockId, |ObjectOf(cut)|, cut.Shards(), cut.SymbolSize())
    }

    function Source(): FecDecoding.Source
      requires cut.Valid()
    {
      FecDecoding.Source(ObjectOf(cut), cut.SymbolSize())
    }
  }

  /** Datagram `i` of an epoch: source symbols as they are, repair symbols with the session id attached. */
  function SentDatagram(code: Code, s: SentBlock, i: nat): Bytes
    requires s.Valid() && i < s.Datagrams()
  {
    Sealed(RunDatagram(code, s.Profile(), ObjectOf(s.cut), s.packetSequence, 0, i), i < s.cut.Shards(), s.cut.epoch.sessionId)
  }

  function Sealed(datagram: Bytes, source: bool, sessionId: u64): Bytes {
    if source then datagram else
      var attached := AttachSessionId(datagram, sessionId);
      if attached.Success? then attached.value else []
  }

  lemma ProfileDescribes(s: SentBlock)
    requires s.cut.Encodable()
    ensures Describes(s.Profile(), ObjectOf(s.cut)) && s.Source().Valid()
  {
    hide ObjectOf, Cut.Shards;
    ObjectIsSource(s.cut);
    ObjectSize(s.cut);
  }

  /** The packet of a plain datagram survives sealing. */
  lemma SealedParses(datagram: Bytes, sessionId: u64)
    requires Parse(datagram).Success? && Parse(datagram).value.header.packetFlags == FLAG_PACKET_CRC32
    ensures var before, sealed := Parse(datagram).value, Sealed(datagram, false, sessionId);
            && |sealed| == |datagram| + SESSION_ID_LEN
            && Parse(sealed).Success?
            && var arrival := Parse(sealed).value;
            && arrival.packet == before.packet
            && arrival.header == before.header.(packetFlags := FLAG_PACKET_CRC32 + FLAG_AUDIO_SESSION_ID,
                                                packetCrc32 := arrival.header.packetCrc32)
            && arrival.header.AudioSessionId(sealed) == Success(Some(sessionId))
  {
    hide AttachSessionId, DecodeHeader, Header.Payload, Header.AudioSessionId, DeserializePacket;
    AttachRoundTrip(datagram, sessionId);
  }

  /**
   Every datagram of an epoch parses to a genuine symbol of its block, in order; repairs carry the
   session id; and none is larger than the framing plus one symbol.
   */
  lemma SentDatagramParses(code: Code, s: SentBlock, i: nat)
    requires code.Lawful() && s.Valid() && i < s.Datagrams()
    ensures var d := SentDatagram(code, s, i);
            && |d| == DatagramSize(s.cut.SymbolSize()) + (if i < s.cut.Shards() then 0 else SESSION_ID_LEN)
            && Parse(d).Success?
            && var arrival := Parse(d).value;
            && GenuineArrival(code, s.Source(), arrival)
            && arrival.packet.esi == i
            && arrival.header.blockId == s.blockId
            && arrival.header.packetSequence == Advance32(s.packetSequence, i)
            && arrival.header.sourceSymbols == s.cut.Shards()
            && (i >= s.cut.Shards() ==> arrival.header.AudioSessionId(d) == Success(Some(s.cut.epoch.sessionId)))
  {
    hide Parse, SymbolDatagram, Header.AudioSessionId, ObjectOf, Cut.Shards, AttachSessionId, Advance32;
    ProfileDescribes(s);
    ObjectIsSource(s.cut);
    var sequence := Advance32(s.packetSequence, i);
    SymbolDatagramParses(code, s.Profile(), ObjectOf(s.cut), sequence, i);
    if i >= s.cut.Shards() {
      SealedParses(RunDatagram(code, s.Profile(), ObjectOf(s.cut), s.packetSequence, 0, i), s.cut.epoch.sessionId);
    }
  }

  /** With room for the trailer, every datagram has the size the geometry counts for it. */
  lemma DatagramCost(code: Code, s: SentBlock, i: nat)
    requires code.Lawful() && s.Valid() && i < s.Datagrams()
    ensures |SentDatagram(code, s, i)| + (if i < s.cut.Shards() then 8 else 0) == 32 + 4 + 8 + 72 + s.cut.fragment
  {
    hide SentDatagram, Parse, ObjectOf, Cut.Shards, GenuineArrival, Header.AudioSessionId, Advance32;
    SentDatagramParses(code, s, i);
  }

  /** What an epoch's source datagrams cost on the wire, from their lengths. */
  lemma {:induction false} SourcesCost(code: Code, config: Config, s: SentBlock, n: nat)
    requires code.Lawful() && s.Valid() && n <= s.cut.Shards()
    ensures SourceBytes(code, config, s, n) == n * (config.transportOverhead + 32 + 4 + 8 + 72 + s.cut.fragment)
    decreases n
  {
    hide SentDatagram, Cut.Shards;
    if n > 0 {
      SourcesCost(code, config, s, n - 1);
      DatagramCost(code, s, n - 1);
      OneMore(n - 1, config.transportOverhead + 32 + 4 + 8 + 72 + s.cut.fragment);
    }
  }

  lemma OneMore(n: nat, cost: nat)
    ensures n * cost + cost == (n + 1) * cost
  {
  }

  /** The first `n` source datagrams with the transport's own bytes and room for a trailer each. */
  function SourceBytes(code: Code, config: Config, s: SentBlock, n: nat): nat
    requires s.Valid() && n <= s.cut.Shards()
  {
    if n == 0 then 0
    else SourceBytes(code, config, s, n - 1) + config.transportOverhead + |SentDatagram(code, s, n - 1)| + 8
  }

  /**
   The geometry is the cheapest way to send the epoch, counted in the datagrams sent: the source datagrams
   take the bytes it says, and cut at any other admissible fragment size they take as many or more.
   */
  lemma CheapestToSend(code: Code, config: Config, g: SymbolGeometry, s: SentBlock, t: SentBlock)
    requires code.Lawful() && s.Valid() && t.Valid() && t.cut.epoch == s.cut.epoch
    requires Cheapest(config, PayloadSizes(s.cut.epoch.groups), g) && s.cut.fragment == g.fragmentPayload
    requires g.sourceWireBytes < U64_MAX && Cuts(config, PayloadSizes(s.cut.epoch.groups), t.cut.fragment)
    ensures g.sourceWireBytes == SourceBytes(code, config, s, s.cut.Shards())
    ensures SourceBytes(code, config, s, s.cut.Shards()) <= SourceBytes(code, config, t, t.cut.Shards())
  {
    hide SentDatagram, SourceBytes, NoDearer, Cheapest, Cuts;
    SourcesCost(code, config, s, s.cut.Shards());
    SourcesCost(code, config, t, t.cut.Shards());
    CheapestCost(config, PayloadSizes(s.cut.epoch.groups), g, t.cut.fragment);
  }

  /** A source datagram carries its shard's symbol in the clear. */
  lemma SourceDatagramCarries(code: Code, s: SentBlock, i: nat)
    requires code.Lawful() && s.Valid() && i < s.cut.Shards()
    ensures var d := SentDatagram(code, s, i);
            Parse(d).Success? && Parse(d).value.packet.symbol == SymbolAt(s.cut, i)
  {
    hide Parse, SentDatagram, ObjectOf, SymbolAt, SourceSymbol, Cut.Shards;
    SentDatagramParses(code, s, i);
    ObjectIsSource(s.cut);
    SourceSymbolIs(s.cut, i);
    assert code.LawfulSymbol(ObjectOf(s.cut), s.cut.SymbolSize(), i);
  }

  // ----- routing identity

  datatype Identity = Identity(blockId: u32, packetSequence: u32, sourceIndex: Option<u16>, sessionId: Option<nat>)

  /** `inspect_multichannel_audio_datagram` */
  function Inspect(datagram: Bytes): Result<Identity, AudioError> {
    match DecodeHeader(datagram)
    case Failure(error) => Failure(Fec(error))
    case Success(header) =>
      match header.Payload(datagram)
      case Failure(error) => Failure(Fec(error))
      case Success(payload) =>
        if |payload| < PACKET_HEADER_LEN then Failure(Fec(PacketTooShort(|datagram|))) else
          var packet := DeserializePacket(payload);
          if packet.esi < header.sourceSymbols then
            var shard :- ShardHeaders.DecodeSymbol(header.blockId, packet.symbol, header.sourceSymbols, packet.esi,
                                                   ShardHeaders.Systematic);
            Success(Identity(header.blockId, header.packetSequence, Some(packet.esi), Some(shard.header.sessionId)))
          else
            match header.AudioSessionId(datagram)
            case Failure(error) => Failure(Fec(error))
            case Success(id) => Success(Identity(header.blockId, header.packetSequence, None, id))
  }

  lemma InspectParsed(datagram: Bytes)
    requires Parse(datagram).Success?
    ensures var Arrival(header, packet) := Parse(datagram).value;
            Inspect(datagram) ==
              if packet.esi < header.sourceSymbols then
                var shard := ShardHeaders.DecodeSymbol(header.blockId, packet.symbol, header.sourceSymbols, packet.esi,
                                                       ShardHeaders.Systematic);
                if shard.Failure? then Failure(shard.error)
                else Success(Identity(header.blockId, header.packetSequence, Some(packet.esi), Some(shard.value.header.sessionId)))
              else
                match header.AudioSessionId(datagram)
                case Failure(error) => Failure(Fec(error))
                case Success(id) => Success(Identity(header.blockId, header.packetSequence, None, id))
  {
    hide ShardHeaders.DecodeSymbol, Header.Payload, Header.AudioSessionId, DecodeHeader, DeserializePacket;
  }

  /** A relay reads block, sequence and session of every datagram of an epoch, source or repair. */
  lemma EveryDatagramRoutable(code: Code, s: SentBlock, i: nat)
    requires code.Lawful() && s.Valid() && i < s.Datagrams()
    ensures Inspect(SentDatagram(code, s, i)) ==
            Success(Identity(s.blockId, Advance32(s.packetSequence, i), if i < s.cut.Shards() then Some(i) else None,
                             Some(s.cut.epoch.sessionId)))
  {
    hide Parse, Inspect, SentDatagram, ShardHeaders.DecodeSymbol, Header.AudioSessionId, SymbolAt, ObjectOf, Cut.Shards;
    SentDatagramParses(code, s, i);
    InspectParsed(SentDatagram(code, s, i));
    if i < s.cut.Shards() {
      SourceDatagramCarries(code, s, i);
      SymbolDecodes(s.cut, s.blockId, i, ShardHeaders.Systematic);
      ShardSession(s.cut, s.blockId, i);
    }
  }

  lemma ShardSession(c: Cut, blockId: u32, i: nat)
    requires c.Valid() && i < c.Shards()
    ensures ShardAt(c, blockId, i, ShardHeaders.Systematic).header.sessionId == c.epoch.sessionId
  {
  }

  // ----- the encoder

  function RoleOf(esi: nat, sourceSymbols: u16): Role
    requires esi < ESI_LIMIT
  {
    if esi < sourceSymbols then SourceRole(esi) else RepairRole(esi)
  }

  function AudioDatagramOf(code: Code, s: SentBlock, i: nat): AudioDatagram
    requires s.Valid() && i < s.Datagrams()
  {
    ShardsBelow(s.cut);
    AudioDatagram(s.blockId, Advance32(s.packetSequence, i), RoleOf(i, s.cut.Shards()), SentDatagram(code, s, i))
  }

  lemma ShardsBelow(c: Cut)
    requires c.Valid()
    ensures c.Shards() <= U16_MAX
  {
  }

  /** What `encode_epoch` returns for an accepted epoch. */
  function Encoded(code: Code, s: SentBlock): EncodedEpoch
    requires s.Valid()
  {
    var e := s.cut.epoch;
    EncodedEpoch(e.sessionId, e.configGeneration, e.epochId, e.ptsSamples, e.sampleRate, e.frameCount, s.blockId,
                 s.cut.Shards(), s.repairSymbols, s.cut.SymbolSize(),
                 seq(s.Datagrams(), i requires 0 <= i < s.Datagrams() => AudioDatagramOf(code, s, i)))
  }

  function ValidateGroups(groups: seq<Group>): Result<(), AudioError> {
    if groups == [] then Success(()) else
      var _ :- ValidateGroup(groups[0]);
      ValidateGroups(groups[1..])
  }

  /** The checks made before any geometry is chosen, in order. */
  function ValidateEpoch(epoch: Epoch): Result<(), AudioError> {
    if epoch.frameCount == 0 then Failure(InvalidFrameCount)
    else if epoch.sampleRate == 0 then Failure(InvalidSampleRate)
    else if epoch.groups == [] then Failure(EmptyEpoch)
    else if |epoch.groups| > U16_MAX then Failure(TooManyGroups(|epoch.groups|))
    else ValidateGroups(epoch.groups)
  }

  /** What is wrong with a group: no channel, PCM or FLAC without a sample format, or a payload beyond 32 bits. */
  ghost predicate GroupFault(g: Group, error: AudioError) {
    if g.channelCount == 0 then error == InvalidChannelCount(g.groupId)
    else if g.payloadKind.Pcm? && g.sampleFormat.Unspecified? then error == PcmFormatRequired(g.groupId)
    else if g.payloadKind.Flac? && g.sampleFormat.Unspecified? then error == FlacFormatRequired(g.groupId)
    else |g.payload| > 0xFFFF_FFFF && error == GroupPayloadTooLong(g.groupId, |g.payload|)
  }

  ghost predicate NoFault(g: Group) {
    forall error :: !GroupFault(g, error)
  }

  lemma GroupChecked(g: Group)
    ensures ValidateGroup(g).Success? <==> NoFault(g)
    ensures ValidateGroup(g).Failure? ==> GroupFault(g, ValidateGroup(g).error)
  {
    if ValidateGroup(g).Failure? {
      assert GroupFault(g, ValidateGroup(g).error);
    }
  }

  /** The first group with a fault. */
  lemma {:induction false} FirstFault(groups: seq<Group>) returns (g: nat)
    requires ValidateGroups(groups).Failure?
    ensures g < |groups| && GroupFault(groups[g], ValidateGroups(groups).error)
    ensures forall k | 0 <= k < g :: NoFault(groups[k])
  {
    hide ValidateGroup, GroupFault, NoFault;
    GroupChecked(groups[0]);
    if ValidateGroup(groups[0]).Failure? {
      g := 0;
    } else {
      var h := FirstFault(groups[1..]);
      g := h + 1;
      assert forall k | 1 <= k < g :: groups[k] == groups[1..][k - 1];
    }
  }

  /** Why an epoch is refused before it is cut, in the order of the checks. */
  lemma EpochRefused(epoch: Epoch) returns (g: nat)
    ensures var r := ValidateEpoch(epoch);
            if epoch.frameCount == 0 then r == Failure(InvalidFrameCount)
            else if epoch.sampleRate == 0 then r == Failure(InvalidSampleRate)
            else if epoch.groups == [] then r == Failure(EmptyEpoch)
            else if |epoch.groups| > 65_535 then r == Failure(TooManyGroups(|epoch.groups|))
            else if forall k | 0 <= k < |epoch.groups| :: NoFault(epoch.groups[k]) then r.Success?
            else
              && r.Failure? && g < |epoch.groups| && GroupFault(epoch.groups[g], r.error)
              && forall k | 0 <= k < g :: NoFault(epoch.groups[k])
  {
    hide GroupFault, NoFault, ValidateGroup, ValidateGroups;
    g := 0;
    if epoch.frameCount > 0 && epoch.sampleRate > 0 && epoch.groups != [] && |epoch.groups| <= 65_535 {
      GroupsValidated(epoch.groups);
      forall k | 0 <= k < |epoch.groups| ensures ValidateGroup(epoch.groups[k]).Success? <==> NoFault(epoch.groups[k]) {
        GroupChecked(epoch.groups[k]);
      }
      if ValidateGroups(epoch.groups).Failure? {
        g := FirstFault(epoch.groups);
      }
    }
  }

  /** What an encoded epoch says of itself and of each of its datagrams: sources by index, then repairs by symbol id. */
  lemma EncodedIs(code: Code, s: SentBlock)
    requires s.Valid()
    ensures var (e, c, r) := (s.cut.epoch, s.cut, Encoded(code, s));
            && r.sessionId == e.sessionId && r.configGeneration == e.configGeneration && r.epochId == e.epochId
            && r.ptsSamples == e.ptsSamples && r.sampleRate == e.sampleRate && r.frameCount == e.frameCount
            && r.blockId == s.blockId && r.sourceSymbols == c.Shards() && r.repairSymbols == s.repairSymbols
            && r.symbolSize == 72 + c.fragment && |r.datagrams| == c.Shards() + s.repairSymbols
            && forall i | 0 <= i < |r.datagrams| ::
                 var d := r.datagrams[i];
                 && d.blockId == s.blockId && d.packetSequence == (s.packetSequence + i) % 0x1_0000_0000
                 && (if i < c.Shards() then d.role == SourceRole(i) else d.role == RepairRole(i))
                 && d.payload == SentDatagram(code, s, i)
  {
    hide SentDatagram, Cut.Shards, ObjectOf;
    ShardsBelow(s.cut);
  }

  lemma {:induction false} GroupsValidated(groups: seq<Group>)
    ensures ValidateGroups(groups).Success? <==> forall g | 0 <= g < |groups| :: ValidateGroup(groups[g]).Success?
  {
    hide ValidateGroup;
    if groups != [] {
      GroupsValidated(groups[1..]);
      assert groups == [groups[0]] + groups[1..];
    }
  }

  /** One datagram from the block encoder on its way out: role, session id on repairs, size check. */
  function Outgoing(config: Config, datagram: Bytes, blockId: u32, sourceSymbols: u16, sessionId: u64)
    : Result<AudioDatagram, AudioError>
  {
    match DecodeHeader(datagram)
    case Failure(error) => Failure(Fec(error))
    case Success(header) =>
      match header.Payload(datagram)
      case Failure(error) => Failure(Fec(error))
      case Success(payload) =>
        if |payload| < PACKET_HEADER_LEN then Failure(Fec(PacketTooShort(|datagram|))) else
          var esi := DeserializePacket(payload).esi;
          Pow256Values();
          var role := RoleOf(esi, sourceSymbols);
          var attached := if role.SourceRole? then Success(datagram) else AttachSessionId(datagram, sessionId);
          if attached.Failure? then Failure(Fec(attached.error))
          else if |attached.value| + config.transportOverhead > config.maxDatagramSize then
            Failure(EncodedDatagramTooLarge(|attached.value| + config.transportOverhead, config.maxDatagramSize))
          else Success(AudioDatagram(blockId, header.packetSequence, role, attached.value))
  }

  /** The largest datagram of an epoch, with everything the transport adds. */
  predicate WithinBudget(config: Config, fragment: nat) {
    config.transportOverhead + DATAGRAM_FRAMING + SHARD_HEADER_LEN + fragment <= config.maxDatagramSize
  }

  lemma OutgoingParsed(config: Config, datagram: Bytes, blockId: u32, sourceSymbols: u16, sessionId: u64)
    requires Parse(datagram).Success? && Parse(datagram).value.header.packetFlags == FLAG_PACKET_CRC32
    requires Parse(datagram).value.packet.esi < ESI_LIMIT
    ensures var Arrival(header, packet) := Parse(datagram).value;
            var sealed := Sealed(datagram, packet.esi < sourceSymbols, sessionId);
            |sealed| + config.transportOverhead <= config.maxDatagramSize ==>
              Outgoing(config, datagram, blockId, sourceSymbols, sessionId)
              == Success(AudioDatagram(blockId, header.packetSequence, RoleOf(packet.esi, sourceSymbols), sealed))
    ensures var sealed := Sealed(datagram, Parse(datagram).value.packet.esi < sourceSymbols, sessionId);
            |sealed| + config.transportOverhead > config.maxDatagramSize ==>
              Outgoing(config, datagram, blockId, sourceSymbols, sessionId)
              == Failure(EncodedDatagramTooLarge(|sealed| + config.transportOverhead, config.maxDatagramSize))
  {
    hide AttachSessionId, DecodeHeader, Header.Payload, Header.AudioSessionId, DeserializePacket;
    AttachRoundTrip(datagram, sessionId);
  }

  /** Within the budget no datagram of an epoch is refused on its way out. */
  lemma OutgoingIs(code: Code, config: Config, s: SentBlock, i: nat)
    requires code.Lawful() && s.Valid() && i < s.Datagrams() && WithinBudget(config, s.cut.fragment)
    ensures Outgoing(config, RunDatagram(code, s.Profile(), ObjectOf(s.cut), s.packetSequence, 0, i), s.blockId,
                     s.cut.Shards(), s.cut.epoch.sessionId)
            == Success(AudioDatagramOf(code, s, i))
  {
    hide Parse, Outgoing, SymbolDatagram, Sealed, ObjectOf, Cut.Shards, Advance32;
    ProfileDescribes(s);
    ObjectIsSource(s.cut);
    SymbolDatagramParses(code, s.Profile(), ObjectOf(s.cut), Advance32(s.packetSequence, i), i);
    SentDatagramParses(code, s, i);
    OutgoingParsed(config, RunDatagram(code, s.Profile(), ObjectOf(s.cut), s.packetSequence, 0, i), s.blockId,
                   s.cut.Shards(), s.cut.epoch.sessionId);
  }

  function SourceKey(d: AudioDatagram): nat {
    match d.role case SourceRole(index) => index case RepairRole(_) => U16_MAX
  }

  /** What is left of a zeroed stretch: the padding of one symbol, then the symbols after it. */
  lemma ZerosBehind(buffer: Bytes, at: nat, used: nat, symbolSize: nat)
    requires used <= symbolSize && at + symbolSize <= |buffer| && buffer[at..] == Zeros(|buffer| - at)
    ensures buffer[at + used..] == Zeros(symbolSize - used) + Zeros(|buffer| - at - symbolSize)
  {
    assert buffer[at + used..] == buffer[at..][used..];
  }

  /** The symbols of an epoch and its repairs fit the 24-bit symbol ids, wherever it is cut. */
  ghost predicate RoomForRepairs(config: Config, groups: seq<Group>) {
    config.MaxFragmentPayload().Success? ==>
      forall f | Optimal(config, PayloadSizes(groups), config.FramingSize().value, config.MaxFragmentPayload().value, f) ::
        SymbolCount(PayloadSizes(groups), f) + config.repairSymbols <= ESI_LIMIT
  }

  class MultichannelAudioFecEncoder {
    var config: Config
    const fec: DatagramFecEncoder

    constructor (code: Code, config: Config)
      ensures this.config == config && fresh(fec) && fec.code == code && fec.blockId == 0 && fec.packetSequence == 0
    {
      this.config := config;
      fec := new DatagramFecEncoder(code);
    }

    method ValidateAll(epoch: Epoch) returns (r: Result<(), AudioError>)
      ensures r == ValidateEpoch(epoch)
    {
      hide ValidateGroup;
      if epoch.frameCount == 0 {
        return Failure(InvalidFrameCount);
      }
      if epoch.sampleRate == 0 {
        return Failure(InvalidSampleRate);
      }
      if epoch.groups == [] {
        return Failure(EmptyEpoch);
      }
      if |epoch.groups| > U16_MAX {
        return Failure(TooManyGroups(|epoch.groups|));
      }
      assert epoch.groups[0..] == epoch.groups;
      for g := 0 to |epoch.groups|
        invariant ValidateGroups(epoch.groups) == ValidateGroups(epoch.groups[g..])
      {
        var checked := ValidateGroup(epoch.groups[g]);
        if checked.Failure? {
          return checked;
        }
        assert epoch.groups[g..][1..] == epoch.groups[g + 1..];
      }
      return Success(());
    }

    /** Puts one shard into a zeroed stretch of the buffer. */
    method WriteShard(c: Cut, g: nat, j: nat, buffer: array<u8>, at: nat)
      requires c.Valid() && g < |c.epoch.groups| && j < c.Fragments(g)
      requires at + c.SymbolSize() <= buffer.Length
      requires buffer[at..] == Zeros(buffer.Length - at)
      modifies buffer
      ensures buffer[..] == old(buffer[..at]) + SymbolOf(c, g, j) + Zeros(buffer.Length - at - c.SymbolSize())
    {
      hide ShardHeaders.ShardHeader.Encoded, ShardHeaders.ShardHeader.Validate, ShardOf, Fragment;
      ghost var before := buffer[..];
      var header := ShardOf(c, g, j);
      var payload := Fragment(c.epoch.groups[g].payload, c.fragment, j);
      ShardValid(c, g, j);
      var encoded := ShardHeaders.EncodeInto(header, buffer, at, c.SymbolSize());
      var start := at + SHARD_HEADER_LEN;
      ghost var headed := buffer[..];
      CopyInto(buffer, start, payload);
      ghost var rest := before[start + |payload|..];
      assert headed[..start] == before[..at] + header.Encoded();
      assert headed[start + |payload|..] == rest;
      ZerosBehind(before, at, SHARD_HEADER_LEN + |payload|, c.SymbolSize());
      assert start + |payload| == at + (SHARD_HEADER_LEN + |payload|);
    }

    /** `copy_from_slice` */
    method CopyInto(buffer: array<u8>, at: nat, data: Bytes)
      requires at + |data| <= buffer.Length
      modifies buffer
      ensures buffer[..] == old(buffer[..at]) + data + old(buffer[at + |data|..])
    {
      forall i | 0 <= i < |data| {
        buffer[at + i] := data[i];
      }
    }

    /** Fills the object buffer: header and fragment of every shard, zeros behind them. */
    method FillObject(c: Cut) returns (buffer: array<u8>)
      requires c.Valid()
      ensures fresh(buffer) && buffer[..] == ObjectOf(c)
    {
      hide SymbolOf, ShardOf, Fragment, Cut.Shards, Cut.Fragments, Cut.FirstShard, SlotAt;
      var t := c.SymbolSize();
      ObjectSize(c);
      buffer := new u8[c.Shards() * t](_ => 0);
      var index, at := 0, 0;
      AllShards(c);
      for g := 0 to |c.epoch.groups|
        invariant index == c.FirstShard(g) <= c.Shards() && buffer.Length == |ObjectOf(c)|
        invariant at == |ObjectUpTo(c, index)| <= buffer.Length
        invariant buffer[..] == ObjectUpTo(c, index) + Zeros(buffer.Length - at)
      {
        FirstShardNext(c, g);
        FirstShardMonotone(c, g + 1, |c.epoch.groups|);
        var fragments := c.Fragments(g);
        for j := 0 to fragments
          invariant index == c.FirstShard(g) + j <= c.Shards() && buffer.Length == |ObjectOf(c)|
          invariant at == |ObjectUpTo(c, index)| <= buffer.Length
          invariant buffer[..] == ObjectUpTo(c, index) + Zeros(buffer.Length - at)
        {
          SlotAtFound(c, g, j);
          ObjectChunk(c, c.Shards(), index);
          assert SymbolAt(c, index) == SymbolOf(c, g, j);
          assert buffer[at..] == Zeros(buffer.Length - at) && buffer[..at] == ObjectUpTo(c, index);
          WriteShard(c, g, j, buffer, at);
          assert ObjectUpTo(c, index + 1) == ObjectUpTo(c, index) + SymbolOf(c, g, j);
          index, at := index + 1, at + t;
        }
      }
    }

    /** `encode_epoch` */
    method EncodeEpoch(epoch: Epoch) returns (r: Result<EncodedEpoch, AudioError>)
      requires fec.code.Lawful() && RoomForRepairs(config, epoch.groups)
      modifies fec
      ensures ValidateEpoch(epoch).Failure? ==> r == Failure(ValidateEpoch(epoch).error)
      ensures ValidateEpoch(epoch).Success? && config.MaxFragmentPayload().Failure? ==>
                r == Failure(config.MaxFragmentPayload().error)
      ensures ValidateEpoch(epoch).Success? && config.MaxFragmentPayload().Success? ==>
                var max, sizes := config.MaxFragmentPayload().value, PayloadSizes(epoch.groups);
                if SymbolCount(sizes, max) > config.maxSourceSymbols then
                  r == Failure(TooManySourceSymbols(SymbolCount(sizes, max), config.maxSourceSymbols))
                else
                  exists f :: Optimal(config, sizes, config.FramingSize().value, max, f)
                              && EncodesCut(old(fec.Abs()), Cut(epoch, f), r)
      ensures r.Failure? ==> fec.blockId == old(fec.blockId) && fec.packetSequence == old(fec.packetSequence)
    {
      hide ValidateEpoch, EncodesCut, SymbolCount;
      var checked := ValidateAll(epoch);
      if checked.Failure? {
        return Failure(checked.error);
      }
      EpochAccepted(epoch);
      var geometry := GeometryForGroups(config, epoch.groups);
      if geometry.Failure? {
        return Failure(geometry.error);
      }
      r := EncodeCut(Cut(epoch, geometry.value.fragmentPayload));
    }

    /** What encoding an epoch cut in this way must come to. */
    ghost predicate EncodesCut(e: Encoder, c: Cut, r: Result<EncodedEpoch, AudioError>)
      reads this, fec
    {
      && c.Valid()
      && if !c.Encodable() then
           r == Failure(Fec(SourceSymbolLimitExceeded(c.Shards(), MAX_SOURCE_SYMBOLS_PER_BLOCK)))
         else
           var s := SentBlock(c, e.blockId, e.packetSequence, config.repairSymbols);
           && s.Valid()
           && r == Success(Encoded(fec.code, s))
           && fec.blockId == WrapAdd32(e.blockId, 1)
           && fec.packetSequence == Advance32(e.packetSequence, s.Datagrams())
    }

    method EncodeCut(c: Cut) returns (r: Result<EncodedEpoch, AudioError>)
      requires fec.code.Lawful() && c.Valid() && c.Shards() + config.repairSymbols <= ESI_LIMIT && WithinBudget(config, c.fragment)
      modifies fec
      ensures EncodesCut(old(fec.Abs()), c, r)
      ensures r.Failure? ==> fec.blockId == old(fec.blockId) && fec.packetSequence == old(fec.packetSequence)
    {
      hide RunDatagram, ObjectOf, Cut.Shards, Advance32, WrapAdd32, Outgoing, AudioDatagramOf;
      var object' := FillObject(c);
      ObjectSize(c);
      ghost var s := SentBlock(c, fec.blockId, fec.packetSequence, config.repairSymbols);
      var blockId := fec.blockId;
      fec.SetGeometry(c.Shards(), c.SymbolSize());
      BlockOutcome(fec.code, fec.Abs(), c, config.repairSymbols);
      var encoded := fec.EncodeBlock(object'[..], config.repairSymbols);
      if encoded.Failure? {
        return Failure(Fec(encoded.error));
      }
      ghost var after := fec.Abs();
      var sources, repairs := [], [];
      for i := 0 to |encoded.value|
        invariant fec.Abs() == after
        invariant |sources| == Min(i, c.Shards()) && |repairs| == i - |sources|
        invariant forall k | 0 <= k < |sources| :: sources[k] == AudioDatagramOf(fec.code, s, k)
        invariant forall k | 0 <= k < |repairs| :: repairs[k] == AudioDatagramOf(fec.code, s, c.Shards() + k)
      {
        OutgoingIs(fec.code, config, s, i);
        RoleAt(fec.code, s, i);
        var output := Outgoing(config, encoded.value[i], blockId, c.Shards(), c.epoch.sessionId);
        match output {
          case Failure(error) =>
            return Failure(error);
          case Success(datagram) =>
            if datagram.role.SourceRole? {
              sources := sources + [datagram];
            } else {
              repairs := repairs + [datagram];
            }
        }
      }
      var inOrder := (a: AudioDatagram, b: AudioDatagram) => SourceKey(a) <= SourceKey(b);
      forall k | 0 <= k < |sources| ensures SourceKey(sources[k]) == k {
        RoleAt(fec.code, s, k);
      }
      SortOfSorted(inOrder, sources);
      sources := StableSort(inOrder, sources);
      var e := c.epoch;
      r := Success(EncodedEpoch(e.sessionId, e.configGeneration, e.epochId, e.ptsSamples, e.sampleRate, e.frameCount,
                                blockId, c.Shards(), config.repairSymbols, c.SymbolSize(), sources + repairs));
      assert sources + repairs == Encoded(fec.code, s).datagrams;
    }
  }

  lemma EpochAccepted(epoch: Epoch)
    requires ValidateEpoch(epoch).Success?
    ensures epoch.frameCount > 0 && epoch.sampleRate > 0 && 0 < |epoch.groups| <= U16_MAX
    ensures forall g | 0 <= g < |epoch.groups| :: ValidateGroup(epoch.groups[g]).Success?
  {
    GroupsValidated(epoch.groups);
  }

  lemma RoleAt(code: Code, s: SentBlock, i: nat)
    requires s.Valid() && i < s.Datagrams()
    ensures AudioDatagramOf(code, s, i).role.SourceRole? <==> i < s.cut.Shards()
    ensures i < s.cut.Shards() ==> SourceKey(AudioDatagramOf(code, s, i)) == i
  {
  }

  /** The block encoder counts the symbols of the object as the cut does. */
  lemma ObjectCount(c: Cut)
    requires c.Valid()
    ensures SourceSymbolCount(|ObjectOf(c)|, c.SymbolSize()) == c.Shards()
  {
    hide ObjectOf, Cut.Shards;
    ObjectSize(c);
  }

  /** The block encoder accepts the object exactly when K is within the block limit. */
  lemma BlockOutcome(code: Code, e: Encoder, c: Cut, repairSymbols: u32)
    requires code.Lawful() && c.Valid() && c.Shards() + repairSymbols <= ESI_LIMIT
    requires e.sourceSymbols == c.Shards() && e.symbolSize == c.SymbolSize()
    ensures SourceSymbolCount(|ObjectOf(c)|, e.symbolSize) + repairSymbols <= ESI_LIMIT
    ensures var s := SentBlock(c, e.blockId, e.packetSequence, repairSymbols);
            EncodedBlock(code, e, ObjectOf(c), repairSymbols) ==
              if c.Encodable() then
                (e.(blockId := WrapAdd32(e.blockId, 1), packetSequence := Advance32(e.packetSequence, s.Datagrams())),
                 Success(SymbolRun(code, s.Profile(), ObjectOf(c), e.packetSequence, 0, s.Datagrams())))
              else (e, Failure(SourceSymbolLimitExceeded(c.Shards(), MAX_SOURCE_SYMBOLS_PER_BLOCK)))
  {
    hide ObjectOf, Cut.Shards, SymbolRun, Advance32, WrapAdd32;
    ObjectSize(c);
    ObjectCount(c);
  }
}
