/**
 The transport adapter: an optional stream id and a magic in front of every audio datagram, with the
 packetizer's budget reduced by as much.
 */
module Transport {
  import opened AudioDecoding
  import opened ByteCodec
  import opened EpochEncoding
  import opened EpochSharding
  import opened Geometry
  import opened MachineInts
  import opened RaptorQ
  import opened Wrappers

  const STREAM_ID_LEN := 8
  /** "AEP1" */
  const AUDIO_MAGIC: Bytes := [0x41, 0x45, 0x50, 0x31]

  datatype StreamIdMode = NoStreamId | Prefix64Be(streamId: u64)

  datatype TransportError =
    | MissingStreamIdPrefix
    | UnexpectedStreamId(expected: u64, actual: nat)
    | DatagramTooLarge(length: nat, max: nat)
    | SourceAfterRepair(packetSequence: u32)
    | MissingAudioEpochPrefix

  datatype WrappedDatagram = WrappedDatagram(
    blockId: u32, packetSequence: u32, role: Role, playoutPtsSamples: u64, payload: Bytes)

  /** `add_prefix`, with the big-endian stream id when there is one */
  function AddPrefix(mode: StreamIdMode, datagram: Bytes): Bytes {
    match mode
    case NoStreamId => datagram
    case Prefix64Be(id) => ToBE(id, STREAM_ID_LEN) + datagram
  }

  /** `strip_transport_prefix` */
  function StripPrefix(mode: StreamIdMode, datagram: Bytes): Result<Bytes, TransportError> {
    match mode
    case NoStreamId => Success(datagram)
    case Prefix64Be(expected) =>
      if |datagram| < STREAM_ID_LEN then Failure(MissingStreamIdPrefix)
      else
        var actual := FromBE(datagram[..STREAM_ID_LEN]);
        if actual != expected then Failure(UnexpectedStreamId(expected, actual)) else Success(datagram[STREAM_ID_LEN..])
  }

  /** `strip_audio_epoch_prefix` */
  function StripMagic(datagram: Bytes): Result<Bytes, TransportError> {
    if AUDIO_MAGIC <= datagram then Success(datagram[|AUDIO_MAGIC|..]) else Failure(MissingAudioEpochPrefix)
  }

  datatype Adapter = Adapter(mode: StreamIdMode, maxDatagramSize: u64) {
    function Overhead(): u64 {
      |AUDIO_MAGIC| + if mode.NoStreamId? then 0 else STREAM_ID_LEN
    }

    /** `prepare_fec_config` */
    function Prepared(config: Config): Config {
      config.(maxDatagramSize := maxDatagramSize, transportOverhead := Overhead())
    }

    /** One transport message. */
    function Wrap(datagram: Bytes): (message: Bytes)
      ensures |message| == Overhead() + |datagram|
    {
      AddPrefix(mode, AUDIO_MAGIC + datagram)
    }

    /** `payload` */
    function Payload(message: Bytes): Result<Bytes, TransportError> {
      var datagram :- StripPrefix(mode, message);
      StripMagic(datagram)
    }

    function WrapOne(d: AudioDatagram, pts: u64): WrappedDatagram {
      WrappedDatagram(d.blockId, d.packetSequence, d.role, pts, Wrap(d.payload))
    }

    /** The loop of `wrap_epoch` over what is left. */
    function WrapFrom(datagrams: seq<AudioDatagram>, pts: u64, sawRepair: bool): Result<seq<WrappedDatagram>, TransportError> {
      if datagrams == [] then Success([])
      else
        var d := datagrams[0];
        if d.role.SourceRole? && sawRepair then Failure(SourceAfterRepair(d.packetSequence))
        else if |Wrap(d.payload)| > maxDatagramSize then Failure(DatagramTooLarge(|Wrap(d.payload)|, maxDatagramSize))
        else
          var rest :- WrapFrom(datagrams[1..], pts, sawRepair || d.role.RepairRole?);
          Success([WrapOne(d, pts)] + rest)
    }

    /** `wrap_epoch` */
    method WrapEpoch(encoded: EncodedEpoch) returns (r: Result<seq<WrappedDatagram>, TransportError>)
      ensures r == WrapFrom(encoded.datagrams, encoded.ptsSamples, false)
    {
      hide Wrap;
      var sawRepair := false;
      var wrapped := [];
      ghost var all := WrapFrom(encoded.datagrams, encoded.ptsSamples, false);
      assert encoded.datagrams[0..] == encoded.datagrams;
      assert all.Success? ==> [] + all.value == all.value;
      for i := 0 to |encoded.datagrams|
        invariant var rest := WrapFrom(encoded.datagrams[i..], encoded.ptsSamples, sawRepair);
                  if rest.Failure? then all == Failure(rest.error) else all == Success(wrapped + rest.value)
      {
        var d := encoded.datagrams[i];
        assert encoded.datagrams[i..][1..] == encoded.datagrams[i + 1..];
        if d.role.SourceRole? && sawRepair {
          return Failure(SourceAfterRepair(d.packetSequence));
        }
        var message := Wrap(d.payload);
        if |message| > maxDatagramSize {
          return Failure(DatagramTooLarge(|message|, maxDatagramSize));
        }
        sawRepair := sawRepair || d.role.RepairRole?;
        ghost var rest := WrapFrom(encoded.datagrams[i + 1..], encoded.ptsSamples, sawRepair);
        assert rest.Success? ==>
            wrapped + ([WrapOne(d, encoded.ptsSamples)] + rest.value) == wrapped + [WrapOne(d, encoded.ptsSamples)] + rest.value;
        wrapped := wrapped + [WrapOne(d, encoded.ptsSamples)];
      }
      assert wrapped + [] == wrapped;
      r := Success(wrapped);
    }

    /** `push_datagram` */
    function Push(code: Code, flow: Flow, message: Bytes): (Flow, Result<Outcome, TransportError>) {
      match Payload(message)
      case Failure(error) => (flow, Failure(error))
      case Success(datagram) =>
        var (flow', outcome) := PushedAudio(code, flow, datagram);
        (flow', Success(outcome))
    }
  }

  // ----- framing

  lemma ToBEOfFromBE(bytes: Bytes)
    ensures ToBE(FromBE(bytes), |bytes|) == bytes
  {
    ToFromLE(Reverse(bytes));
    ReverseTwice(bytes);
  }

  lemma WrapIsRead(a: Adapter, datagram: Bytes)
    ensures a.Payload(a.Wrap(datagram)) == Success(datagram)
  {
    hide ToBE, FromBE, Pow256;
    Pow256Values();
    if a.mode.Prefix64Be? {
      FromToBE(a.mode.streamId, STREAM_ID_LEN);
      var message := a.Wrap(datagram);
      assert message[..STREAM_ID_LEN] == ToBE(a.mode.streamId, STREAM_ID_LEN);
      assert message[STREAM_ID_LEN..] == AUDIO_MAGIC + datagram;
    }
  }

  lemma ReadIsWrapped(a: Adapter, message: Bytes)
    requires a.Payload(message).Success?
    ensures message == a.Wrap(a.Payload(message).value)
  {
    hide ToBE, FromBE;
    if a.mode.Prefix64Be? {
      ToBEOfFromBE(message[..STREAM_ID_LEN]);
      var rest := message[STREAM_ID_LEN..];
      assert rest == AUDIO_MAGIC + rest[|AUDIO_MAGIC|..];
      assert message == message[..STREAM_ID_LEN] + rest;
    } else {
      assert message == AUDIO_MAGIC + message[|AUDIO_MAGIC|..];
    }
  }

  /** What is accepted is exactly what the adapter produces: the original datagram behind the prefix. */
  lemma PayloadInvertsWrap(a: Adapter, message: Bytes, datagram: Bytes)
    ensures a.Payload(message) == Success(datagram) <==> message == a.Wrap(datagram)
  {
    hide Adapter.Payload, Adapter.Wrap;
    WrapIsRead(a, datagram);
    if a.Payload(message).Success? {
      ReadIsWrapped(a, message);
    }
  }

  /** Byte `k` of eight, highest first. */
  function ByteOfEight(v: u64, k: nat): u8
    requires k < 8
  {
    match k
    case 0 => v / 0x100_0000_0000_0000 % 256
    case 1 => v / 0x1_0000_0000_0000 % 256
    case 2 => v / 0x100_0000_0000 % 256
    case 3 => v / 0x1_0000_0000 % 256
    case 4 => v / 0x100_0000 % 256
    case 5 => v / 0x1_0000 % 256
    case 6 => v / 0x100 % 256
    case _ => v % 256
  }

  lemma DivideAgain(v: u64)
    ensures v / 0x100 / 256 == v / 0x1_0000 && v / 0x1_0000 / 256 == v / 0x100_0000
    ensures v / 0x100_0000 / 256 == v / 0x1_0000_0000 && v / 0x1_0000_0000 / 256 == v / 0x100_0000_0000
    ensures v / 0x100_0000_0000 / 256 == v / 0x1_0000_0000_0000
    ensures v / 0x1_0000_0000_0000 / 256 == v / 0x100_0000_0000_0000
  {
  }

  lemma EightBytes(v: u64)
    ensures ToBE(v, 8) == [ByteOfEight(v, 0), ByteOfEight(v, 1), ByteOfEight(v, 2), ByteOfEight(v, 3),
                           ByteOfEight(v, 4), ByteOfEight(v, 5), ByteOfEight(v, 6), ByteOfEight(v, 7)]
  {
    hide ToBE;
    DivideAgain(v);
    HighByteFirst(v, 8);
    HighByteFirst(v / 0x100, 7);
    HighByteFirst(v / 0x1_0000, 6);
    HighByteFirst(v / 0x100_0000, 5);
    HighByteFirst(v / 0x1_0000_0000, 4);
    HighByteFirst(v / 0x100_0000_0000, 3);
    HighByteFirst(v / 0x1_0000_0000_0000, 2);
    HighByteFirst(v / 0x100_0000_0000_0000, 1);
  }

  /** The message: the stream id in eight bytes, highest first, if there is one, then "AEP1", then the datagram. */
  lemma MessageLayout(a: Adapter, datagram: Bytes)
    ensures var message := a.Wrap(datagram);
            match a.mode
            case NoStreamId => message == [0x41, 0x45, 0x50, 0x31] + datagram
            case Prefix64Be(id) =>
              && |message| == 12 + |datagram| && message[8..] == [0x41, 0x45, 0x50, 0x31] + datagram
              && forall k: nat | k < 8 :: message[k] == ByteOfEight(id, k)
  {
    hide ToBE, Pow256;
    if a.mode.Prefix64Be? {
      EightBytes(a.mode.streamId);
    }
  }

  /** Why a message is refused: no room for the stream id, another one, or no "AEP1". */
  lemma PayloadRefused(a: Adapter, message: Bytes)
    ensures var r := a.Payload(message);
            var id := if |message| >= 8 then FromBE(message[..8]) else 0;
            var rest := if a.mode.NoStreamId? || |message| < 8 then message else message[8..];
            if a.mode.Prefix64Be? && |message| < 8 then r == Failure(MissingStreamIdPrefix)
            else if a.mode.Prefix64Be? && id != a.mode.streamId then r == Failure(UnexpectedStreamId(a.mode.streamId, id))
            else if |rest| < 4 || rest[..4] != [0x41, 0x45, 0x50, 0x31] then r == Failure(MissingAudioEpochPrefix)
            else r == Success(rest[4..])
  {
    hide FromBE;
  }

  ghost predicate SourcesBeforeRepairs(datagrams: seq<AudioDatagram>) {
    forall i, j | 0 <= i < j < |datagrams| && datagrams[i].role.RepairRole? :: datagrams[j].role.RepairRole?
  }

  ghost predicate AllFit(a: Adapter, datagrams: seq<AudioDatagram>) {
    forall i | 0 <= i < |datagrams| :: |a.Wrap(datagrams[i].payload)| <= a.maxDatagramSize
  }

  ghost predicate NoSources(datagrams: seq<AudioDatagram>) {
    forall i | 0 <= i < |datagrams| :: datagrams[i].role.RepairRole?
  }

  /** An epoch is wrapped exactly when its sources come first and every message fits. */
  lemma {:induction false} WrapsWhen(a: Adapter, datagrams: seq<AudioDatagram>, pts: u64, sawRepair: bool)
    ensures a.WrapFrom(datagrams, pts, sawRepair).Success?
            <==> AllFit(a, datagrams) && if sawRepair then NoSources(datagrams) else SourcesBeforeRepairs(datagrams)
    ensures a.WrapFrom(datagrams, pts, sawRepair).Success? ==>
              && |a.WrapFrom(datagrams, pts, sawRepair).value| == |datagrams|
              && forall i | 0 <= i < |datagrams| ::
                   && a.WrapFrom(datagrams, pts, sawRepair).value[i] == a.WrapOne(datagrams[i], pts)
                   && var (d, w) := (datagrams[i], a.WrapFrom(datagrams, pts, sawRepair).value[i]);
                      w == WrappedDatagram(d.blockId, d.packetSequence, d.role, pts, a.Wrap(d.payload))
    decreases |datagrams|
  {
    hide Adapter.Wrap;
    if datagrams != [] {
      var d := datagrams[0];
      WrapsWhen(a, datagrams[1..], pts, sawRepair || d.role.RepairRole?);
      assert forall i | 0 < i < |datagrams| :: datagrams[i] == datagrams[1..][i - 1];
      FrontAndRest(a, datagrams);
    }
  }

  /** What is wrong with datagram `i`, given those before it. */
  ghost predicate Stops(a: Adapter, datagrams: seq<AudioDatagram>, sawRepair: bool, i: nat, error: TransportError)
    requires i < |datagrams|
  {
    var d := datagrams[i];
    if d.role.SourceRole? && (sawRepair || !AllSources(datagrams[..i])) then error == SourceAfterRepair(d.packetSequence)
    else |a.Wrap(d.payload)| > a.maxDatagramSize && error == DatagramTooLarge(|a.Wrap(d.payload)|, a.maxDatagramSize)
  }

  predicate AllSources(datagrams: seq<AudioDatagram>) {
    forall i | 0 <= i < |datagrams| :: datagrams[i].role.SourceRole?
  }

  /** A refused epoch names its first datagram that is a source behind a repair or does not fit. */
  lemma {:induction false} WrapStopsAt(a: Adapter, datagrams: seq<AudioDatagram>, pts: u64, sawRepair: bool) returns (i: nat)
    requires a.WrapFrom(datagrams, pts, sawRepair).Failure?
    ensures i < |datagrams| && Stops(a, datagrams, sawRepair, i, a.WrapFrom(datagrams, pts, sawRepair).error)
    ensures a.WrapFrom(datagrams[..i], pts, sawRepair).Success?
    decreases |datagrams|
  {
    hide Adapter.Wrap;
    var d := datagrams[0];
    if (d.role.SourceRole? && sawRepair) || |a.Wrap(d.payload)| > a.maxDatagramSize {
      i := 0;
    } else {
      var j := WrapStopsAt(a, datagrams[1..], pts, sawRepair || d.role.RepairRole?);
      i := j + 1;
      assert datagrams[..i][1..] == datagrams[1..][..j];
      assert datagrams[..i] == [d] + datagrams[1..][..j];
    }
  }

  lemma FrontAndRest(a: Adapter, datagrams: seq<AudioDatagram>)
    requires datagrams != []
    ensures AllFit(a, datagrams) <==> |a.Wrap(datagrams[0].payload)| <= a.maxDatagramSize && AllFit(a, datagrams[1..])
    ensures NoSources(datagrams) <==> datagrams[0].role.RepairRole? && NoSources(datagrams[1..])
    ensures SourcesBeforeRepairs(datagrams) <==>
              if datagrams[0].role.RepairRole? then NoSources(datagrams[1..]) else SourcesBeforeRepairs(datagrams[1..])
  {
    hide Adapter.Wrap;
    assert forall i | 0 < i < |datagrams| :: datagrams[i] == datagrams[1..][i - 1];
    assert datagrams == [datagrams[0]] + datagrams[1..];
  }

  // ----- the budget

  /** A fragment size from the prepared configuration leaves room for everything the transport adds. */
  lemma PreparedFits(config: Config, fragment: nat)
    requires config.MaxFragmentPayload().Success? && fragment <= config.MaxFragmentPayload().value
    ensures WithinBudget(config, fragment)
  {
  }

  /** Datagram `i` of an epoch cut within the prepared budget fits the adapter's maximum once wrapped. */
  lemma SentFits(code: Code, a: Adapter, config: Config, s: SentBlock, i: nat)
    requires code.Lawful() && s.Valid() && i < s.Datagrams() && WithinBudget(a.Prepared(config), s.cut.fragment)
    ensures |a.Wrap(SentDatagram(code, s, i))| <= a.maxDatagramSize
  {
    hide SentDatagram, Cut.Shards, Adapter.Wrap;
    SentDatagramParses(code, s, i);
  }

  /**
   Under a prepared configuration wrapping never fails: an epoch encoded with any fragment size that
   configuration admits becomes one message per datagram, none over the adapter's maximum, each giving
   the original datagram back.
   */
  lemma PreparedEpochWraps(code: Code, a: Adapter, config: Config, s: SentBlock)
    requires code.Lawful() && s.Valid() && a.Prepared(config).MaxFragmentPayload().Success?
    requires s.cut.fragment <= a.Prepared(config).MaxFragmentPayload().value
    ensures var encoded := Encoded(code, s);
            var r := a.WrapFrom(encoded.datagrams, encoded.ptsSamples, false);
            && r.Success? && |r.value| == |encoded.datagrams|
            && forall i | 0 <= i < |r.value| ::
                 && r.value[i] == a.WrapOne(encoded.datagrams[i], s.cut.epoch.ptsSamples)
                 && |r.value[i].payload| <= a.maxDatagramSize
                 && a.Payload(r.value[i].payload) == Success(encoded.datagrams[i].payload)
  {
    hide SentDatagram, Cut.Shards, Adapter.Wrap, Adapter.WrapFrom, Adapter.Payload, Advance32, WithinBudget,
         Config.MaxFragmentPayload;
    PreparedFits(a.Prepared(config), s.cut.fragment);
    var datagrams := Encoded(code, s).datagrams;
    forall i | 0 <= i < |datagrams|
      ensures |a.Wrap(datagrams[i].payload)| <= a.maxDatagramSize
      ensures datagrams[i].role.SourceRole? <==> i < s.cut.Shards()
      ensures a.Payload(a.Wrap(datagrams[i].payload)) == Success(datagrams[i].payload)
    {
      SentFits(code, a, config, s, i);
      RoleAt(code, s, i);
      PayloadInvertsWrap(a, a.Wrap(datagrams[i].payload), datagrams[i].payload);
    }
    WrapsWhen(a, datagrams, s.cut.epoch.ptsSamples, false);
  }

  /** A wrapped datagram reaches the decoder as it was; anything else changes nothing. */
  lemma PushUnwraps(a: Adapter, code: Code, flow: Flow, message: Bytes)
    ensures if exists datagram :: message == a.Wrap(datagram) then
              forall datagram | message == a.Wrap(datagram) ::
                a.Push(code, flow, message)
                == (PushedAudio(code, flow, datagram).0, Success(PushedAudio(code, flow, datagram).1))
            else a.Push(code, flow, message).0 == flow && a.Push(code, flow, message).1.Failure?
  {
    hide Adapter.Wrap, Adapter.Payload, PushedAudio;
    forall datagram | message == a.Wrap(datagram) ensures a.Payload(message) == Success(datagram) {
      PayloadInvertsWrap(a, message, datagram);
    }
    if a.Payload(message).Success? {
      PayloadInvertsWrap(a, message, a.Payload(message).value);
    }
  }
}
