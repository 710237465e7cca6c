/**
 The multichannel audio decoder: systematic shards are handed out at once, holes are filled from the
 recovered object, and bounded windows decide which blocks are open and which are closed. `PushedAudio` and
 `ExpiredAudio` are the transitions over a value; the class performs them in place.
 */
module AudioDecoding {
  import opened AudioTypes
  import opened ByteCodec
  import opened ClosedWindows
  import opened Collections
  import opened Datagram
  import opened FecDecoding
  import opened MachineInts
  import opened RaptorQ
  import opened ShardHeaders
  import opened Wrappers

  type Outcome = Result<seq<Shard>, AudioError>

  datatype Flow = Flow(
    fec: Decoder, delivered: map<u32, set<u16>>, inFlight: set<u32>, inFlightOrder: seq<u32>,
    completed: Window, maxInFlight: nat, maxCompleted: nat)

  function NewFlow(maxInFlight: nat, maxCompleted: nat): Flow {
    Flow(IDLE, map[], {}, [], ClosedWindows.EMPTY, Max(maxInFlight, 1), Max(maxCompleted, 1))
  }

  // ----- the windows

  /** `remember_closed` */
  function RememberClosed(s: Flow, blockId: u32): Flow {
    s.(completed := Remembered(s.completed, blockId, s.maxCompleted))
  }

  /** Close the oldest open blocks until the limit is met. */
  function EvictOldest(s: Flow): Flow
    decreases |s.inFlightOrder|
  {
    if |s.inFlight| <= s.maxInFlight || s.inFlightOrder == [] then s
    else
      var oldest := s.inFlightOrder[0];
      var popped := s.(inFlightOrder := s.inFlightOrder[1..]);
      EvictOldest(
        if oldest !in s.inFlight then popped
        else RememberClosed(popped.(inFlight := s.inFlight - {oldest}, fec := Closed(s.fec, oldest),
                                    delivered := s.delivered - {oldest}), oldest))
  }

  /** `observe_in_flight` */
  function ObserveInFlight(s: Flow, blockId: u32): Flow {
    if blockId in s.inFlight then s
    else EvictOldest(s.(inFlight := s.inFlight + {blockId}, inFlightOrder := s.inFlightOrder + [blockId]))
  }

  /** `close_block` */
  function CloseBlock(s: Flow, blockId: u32): Flow {
    RememberClosed(s.(inFlight := s.inFlight - {blockId}, inFlightOrder := Without(s.inFlightOrder, blockId),
                      delivered := s.delivered - {blockId}), blockId)
  }

  /** `expire_block` */
  function ExpiredAudio(s: Flow, blockId: u32): Flow {
    CloseBlock(s.(fec := Closed(s.fec, blockId)), blockId)
  }

  // ----- delivery

  function DeliveredOf(s: Flow, blockId: u32): set<u16> {
    if blockId in s.delivered then s.delivered[blockId] else {}
  }

  datatype Filled = Filled(delivered: set<u16>, output: seq<Shard>, error: Option<AudioError>)

  /** Hand out the shards of a recovered object that were not delivered yet. */
  function FillHoles(blockId: u32, count: u16, symbolSize: u16, symbols: Bytes, i: nat, delivered: set<u16>): Filled
    requires i <= count && |symbols| == symbolSize * count
    decreases count - i
  {
    if i == count then Filled(delivered, [], None)
    else if i in delivered then FillHoles(blockId, count, symbolSize, symbols, i + 1, delivered)
    else
      match DecodeSymbol(blockId, SymbolSlice(symbols, symbolSize, count, i), count, i, Repaired)
      case Failure(error) => Filled(delivered, [], Some(error))
      case Success(shard) =>
        var rest := FillHoles(blockId, count, symbolSize, symbols, i + 1, delivered + {i});
        rest.(output := [shard] + rest.output)
  }

  /** Chunk `i` of `chunks_exact` */
  function SymbolSlice(symbols: Bytes, symbolSize: nat, count: nat, i: nat): Bytes
    requires i < count && |symbols| == symbolSize * count
  {
    SliceFits(symbolSize, count, i);
    symbols[i * symbolSize..i * symbolSize + symbolSize]
  }

  lemma SliceFits(symbolSize: nat, count: nat, i: nat)
    requires i < count
    ensures i * symbolSize + symbolSize <= symbolSize * count
  {
    assert (i + 1) * symbolSize <= count * symbolSize;
    assert (i + 1) * symbolSize == i * symbolSize + symbolSize;
  }

  predicate BySourceIndex(a: Shard, b: Shard) {
    a.header.sourceIndex <= b.header.sourceIndex
  }

  /** The source shard a datagram carries in the clear, if it carries one. */
  function Candidate(arrival: Arrival): Result<Option<Shard>, AudioError> {
    var Arrival(header, packet) := arrival;
    if packet.esi < header.sourceSymbols then
      var shard :- DecodeSymbol(header.blockId, packet.symbol, header.sourceSymbols, packet.esi, Systematic);
      Success(Some(shard))
    else Success(None)
  }

  /** Delivery after the block decoder accepted the packet. */
  function Delivered(s: Flow, header: Header, candidate: Option<Shard>, recovered: Option<Bytes>): (Flow, Outcome) {
    var id := header.blockId;
    var before := DeliveredOf(s, id);
    var fresh' := candidate.Some? && candidate.value.header.sourceIndex !in before;
    var marked := if fresh' then before + {candidate.value.header.sourceIndex} else before;
    var output := if fresh' then [candidate.value] else [];
    match recovered
    case None => (s.(delivered := s.delivered[id := marked]), Success(StableSort(BySourceIndex, output)))
    case Some(symbols) =>
      var expected := header.symbolSize * header.sourceSymbols;
      if |symbols| != expected then
        (s.(delivered := s.delivered[id := marked]), Failure(DecodedObjectLengthMismatch(expected, |symbols|)))
      else
        var filled := FillHoles(id, header.sourceSymbols, header.symbolSize, symbols, 0, marked);
        var s' := s.(delivered := s.delivered[id := filled.delivered]);
        if filled.error.Some? then (s', Failure(filled.error.value))
        else (CloseBlock(s', id), Success(StableSort(BySourceIndex, output + filled.output)))
  }

  /** What a parsed datagram of a block that is not closed does. */
  function Admitted(code: Code, s: Flow, datagram: Bytes, arrival: Arrival): (Flow, Outcome) {
    match Candidate(arrival)
    case Failure(error) => (s, Failure(error))
    case Success(candidate) =>
      var (fec', r) := FecDecoding.Pushed(code, s.fec, datagram);
      var s' := s.(fec := fec');
      match r
      case Failure(error) => (s', Failure(Fec(error)))
      case Success(recovered) =>
        Delivered(if recovered.None? then ObserveInFlight(s', arrival.header.blockId) else s',
                  arrival.header, candidate, recovered)
  }

  /** `push_datagram` */
  function PushedAudio(code: Code, s: Flow, datagram: Bytes): (Flow, Outcome) {
    match DecodeHeader(datagram)
    case Failure(error) => (s, Failure(Fec(error)))
    case Success(header) =>
      if header.blockId in s.completed.members then (s, Success([]))
      else
        match header.Payload(datagram)
        case Failure(error) => (s, Failure(Fec(error)))
        case Success(payload) =>
          if |payload| < PACKET_HEADER_LEN then (s, Failure(Fec(PacketTooShort(|datagram|))))
          else Admitted(code, s, datagram, Arrival(header, DeserializePacket(payload)))
  }

  class MultichannelAudioFecDecoder {
    const fec: DatagramFecDecoder
    var delivered: map<u32, set<u16>>
    var inFlight: set<u32>
    var inFlightOrder: seq<u32>
    var completed: set<u32>
    var completedOrder: seq<u32>
    ghost var closures: seq<u32>
    const maxInFlight: nat
    const maxCompleted: nat

    ghost function Abs(): Flow
      reads this, fec, fec.tracker
    {
      Flow(fec.Abs(), delivered, inFlight, inFlightOrder, Window(completed, completedOrder, closures), maxInFlight,
           maxCompleted)
    }

    constructor (code: Code, maxInFlight: nat, maxCompleted: nat)
      ensures Abs() == NewFlow(maxInFlight, maxCompleted)
      ensures fresh(fec) && fresh(fec.tracker) && fec.code == code
    {
      fec := new DatagramFecDecoder(code);
      delivered, inFlight, inFlightOrder, completed, completedOrder, closures := map[], {}, [], {}, [], [];
      this.maxInFlight, this.maxCompleted := Max(maxInFlight, 1), Max(maxCompleted, 1);
    }

    method PushDatagram(datagram: Bytes) returns (r: Outcome)
      modifies this, fec, fec.tracker
      ensures (Abs(), r) == PushedAudio(fec.code, old(Abs()), datagram)
    {
      hide FecDecoding.Pushed, Header.Payload, DecodeHeader, DecodeSymbol, ObserveInFlight, Delivered;
      var decoded := DecodeHeader(datagram);
      if decoded.Failure? {
        return Failure(Fec(decoded.error));
      }
      var header := decoded.value;
      if header.blockId in completed {
        return Success([]);
      }
      var serialized := header.Payload(datagram);
      if serialized.Failure? {
        return Failure(Fec(serialized.error));
      }
      if |serialized.value| < PACKET_HEADER_LEN {
        return Failure(Fec(PacketTooShort(|datagram|)));
      }
      var candidate := Candidate(Arrival(header, DeserializePacket(serialized.value)));
      if candidate.Failure? {
        return Failure(candidate.error);
      }
      var recovered := fec.PushDatagram(datagram);
      if recovered.Failure? {
        return Failure(Fec(recovered.error));
      }
      if recovered.value.None? {
        ObserveBlock(header.blockId);
      }
      r := Deliver(header, candidate.value, recovered.value);
    }

    method Deliver(header: Header, candidate: Option<Shard>, recovered: Option<Bytes>) returns (r: Outcome)
      modifies this
      ensures (Abs(), r) == Delivered(old(Abs()), header, candidate, recovered)
    {
      hide CloseBlock, DecodeSymbol, StableSort;
      var id := header.blockId;
      var marked: set<u16> := if id in delivered then delivered[id] else {};
      var output := [];
      if candidate.Some? && candidate.value.header.sourceIndex !in marked {
        marked := marked + {candidate.value.header.sourceIndex};
        output := [candidate.value];
      }
      if recovered.Some? {
        var symbols, count := recovered.value, header.sourceSymbols;
        var expected := header.symbolSize * count;
        if |symbols| != expected {
          delivered := delivered[id := marked];
          return Failure(DecodedObjectLengthMismatch(expected, |symbols|));
        }
        ghost var all := FillHoles(id, count, header.symbolSize, symbols, 0, marked);
        ghost var direct := output;
        for i := 0 to count
          invariant Abs() == old(Abs())
          invariant var rest := FillHoles(id, count, header.symbolSize, symbols, i, marked);
                    all.delivered == rest.delivered && all.error == rest.error
                    && direct + all.output == output + rest.output
        {
          if i !in marked {
            var shard := DecodeSymbol(id, SymbolSlice(symbols, header.symbolSize, count, i), count, i, Repaired);
            if shard.Failure? {
              delivered := delivered[id := marked];
              return Failure(shard.error);
            }
            marked := marked + {i};
            output := output + [shard.value];
          }
        }
        assert output + [] == output;
        delivered := delivered[id := marked];
        Close(id);
      } else {
        delivered := delivered[id := marked];
      }
      r := Success(StableSort(BySourceIndex, output));
    }

    method ExpireBlock(blockId: u32)
      modifies this, fec
      ensures Abs() == ExpiredAudio(old(Abs()), blockId)
    {
      fec.ExpireBlock(blockId);
      Close(blockId);
    }

    method ObserveBlock(blockId: u32)
      modifies this, fec
      ensures Abs() == ObserveInFlight(old(Abs()), blockId)
    {
      if blockId in inFlight {
        return;
      }
      inFlight := inFlight + {blockId};
      inFlightOrder := inFlightOrder + [blockId];
      while |inFlight| > maxInFlight && inFlightOrder != []
        invariant EvictOldest(Abs()) == ObserveInFlight(old(Abs()), blockId)
        decreases |inFlightOrder|
      {
        hide Closed, Remembered;
        var oldest := inFlightOrder[0];
        inFlightOrder := inFlightOrder[1..];
        if oldest in inFlight {
          inFlight := inFlight - {oldest};
          fec.ExpireBlock(oldest);
          delivered := delivered - {oldest};
          Remember(oldest);
        }
      }
    }

    method Close(blockId: u32)
      modifies this
      ensures Abs() == CloseBlock(old(Abs()), blockId)
    {
      hide Remembered;
      inFlight := inFlight - {blockId};
      RetainOthers(blockId);
      delivered := delivered - {blockId};
      Remember(blockId);
    }

    method RetainOthers(blockId: u32)
      modifies `inFlightOrder
      ensures inFlightOrder == Without(old(inFlightOrder), blockId)
    {
      var kept := [];
      for i := 0 to |inFlightOrder|
        invariant inFlightOrder == old(inFlightOrder)
        invariant Without(inFlightOrder, blockId) == kept + Without(inFlightOrder[i..], blockId)
      {
        assert inFlightOrder[i..][1..] == inFlightOrder[i + 1..];
        if inFlightOrder[i] != blockId {
          kept := kept + [inFlightOrder[i]];
        }
      }
      inFlightOrder := kept;
    }

    method Remember(blockId: u32)
      modifies `completed, `completedOrder, `closures
      ensures Window(completed, completedOrder, closures)
              == Remembered(Window(old(completed), old(completedOrder), old(closures)), blockId, maxCompleted)
    {
      if blockId !in completed {
        completed := completed + {blockId};
        completedOrder := completedOrder + [blockId];
        closures := closures + [blockId];
      }
      while |completedOrder| > maxCompleted
        invariant Trimmed(Window(completed, completedOrder, closures), maxCompleted)
                  == Remembered(Window(old(completed), old(completedOrder), old(closures)), blockId, maxCompleted)
        decreases |completedOrder|
      {
        completed := completed - {completedOrder[0]};
        completedOrder := completedOrder[1..];
      }
    }
  }

  // ----- refusals

  /**
   What is refused or ignored before anything is delivered: a bad header, a closed block, a bad payload, a
   packet too short, a systematic symbol that is not the shard its packet says, or what the block decoder
   refuses. Only the last leaves a trace, in the block decoder.
   */
  lemma PushRefused(code: Code, s: Flow, datagram: Bytes)
    ensures var (s', r) := PushedAudio(code, s, datagram);
            if DecodeHeader(datagram).Failure? then r == Failure(Fec(DecodeHeader(datagram).error)) && s' == s
            else
              var h := DecodeHeader(datagram).value;
              if h.blockId in s.completed.members then r == Success([]) && s' == s
              else if h.Payload(datagram).Failure? then r == Failure(Fec(h.Payload(datagram).error)) && s' == s
              else if h.payloadLen < 4 then r == Failure(Fec(PacketTooShort(|datagram|))) && s' == s
              else
                && 32 + h.payloadLen <= |datagram|
                && var p := DeserializePacket(datagram[32..32 + h.payloadLen]);
                   if p.esi < h.sourceSymbols
                      && DecodeSymbol(h.blockId, p.symbol, h.sourceSymbols, p.esi, Systematic).Failure? then
                     r == Failure(DecodeSymbol(h.blockId, p.symbol, h.sourceSymbols, p.esi, Systematic).error) && s' == s
                   else
                     var (fec', accepted) := FecDecoding.Pushed(code, s.fec, datagram);
                     accepted.Failure? ==> r == Failure(Fec(accepted.error)) && s' == s.(fec := fec')
  {
    hide DecodeHeader, Header.Payload, Header.AudioSessionId, DeserializePacket, FecDecoding.Pushed, Delivered, ObserveInFlight,
         DecodeSymbol;
    if DecodeHeader(datagram).Success? {
      PayloadAccepted(datagram);
    }
  }

  /**
   A recovered object of another length than its symbols is an error, after the datagram's own shard was
   marked as delivered; nothing else of the block changes.
   */
  lemma LengthMismatch(s: Flow, header: Header, candidate: Option<Shard>, recovered: Bytes)
    requires |recovered| != header.symbolSize * header.sourceSymbols
    ensures var (s', r) := Delivered(s, header, candidate, Some(recovered));
            && r == Failure(DecodedObjectLengthMismatch(header.symbolSize * header.sourceSymbols, |recovered|))
            && DeliveredOf(s', header.blockId)
               == DeliveredOf(s, header.blockId) + (if candidate.Some? then {candidate.value.header.sourceIndex} else {})
            && (forall b | b != header.blockId :: DeliveredOf(s', b) == DeliveredOf(s, b))
            && s'.completed == s.completed && s'.inFlight == s.inFlight && s'.fec == s.fec
  {
  }

  /** Whatever was pushed, shards come out in the order of their source indices. */
  lemma OutputSorted(code: Code, s: Flow, datagram: Bytes)
    requires PushedAudio(code, s, datagram).1.Success?
    ensures var output := PushedAudio(code, s, datagram).1.value;
            forall i, j | 0 <= i < j < |output| :: output[i].header.sourceIndex <= output[j].header.sourceIndex
  {
    hide DecodeHeader, Header.Payload, DeserializePacket, FecDecoding.Pushed, ObserveInFlight, Candidate, FillHoles, CloseBlock,
         StableSort;
    forall shards ensures SortedBy(BySourceIndex, StableSort(BySourceIndex, shards)) {
      SortSorts(BySourceIndex, shards);
    }
    var output := PushedAudio(code, s, datagram).1.value;
    assert output == [] || exists shards :: output == StableSort(BySourceIndex, shards);
    forall i, j | 0 <= i < j < |output| ensures output[i].header.sourceIndex <= output[j].header.sourceIndex {
      assert BySourceIndex(output[i], output[j]);
    }
  }
}
