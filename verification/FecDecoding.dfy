/**
 The decoder of one datagram flow: one RaptorQ block decoder per open block, and a window of closed
 block ids that suppresses late packets. `Pushed` and `Expired` are the transitions; the class
 performs them in place.
 */
module FecDecoding {
  import opened ByteCodec
  import opened Datagram
  import opened MachineInts
  import opened RaptorQ
  import opened SequenceTracking
  import opened Wrappers

  const COMPLETED_WINDOW := 64

  datatype BlockState = BlockState(received: Received, transferLength: u32, sourceSymbols: u16, symbolSize: u16)

  datatype Decoder = Decoder(blocks: map<u32, BlockState>, completed: set<u32>, tracker: Tracker)

  const IDLE := Decoder(map[], {}, FRESH)

  type PushResult = Result<Option<Bytes>, FecError>

  /** A datagram with its header and checksum checked and its packet taken apart. */
  datatype Arrival = Arrival(header: Header, packet: Packet)

  function Parse(datagram: Bytes): Result<Arrival, FecError> {
    if |datagram| < HEADER_LEN + PACKET_HEADER_LEN then Failure(PacketTooShort(|datagram|)) else
      var header :- DecodeHeader(datagram);
      var payload :- header.Payload(datagram);
      if |payload| < PACKET_HEADER_LEN then Failure(PacketTooShort(|datagram|))
      else Success(Arrival(header, DeserializePacket(payload)))
  }

  predicate WithinWindow(blockId: u32, current: u32) {
    current < COMPLETED_WINDOW || blockId >= WrapSub32(current, COMPLETED_WINDOW)
  }

  /** `prune` */
  function PruneBlocks(blocks: map<u32, BlockState>, current: u32): map<u32, BlockState> {
    map b | b in blocks && WithinWindow(b, current) :: blocks[b]
  }

  function PruneCompleted(completed: set<u32>, current: u32): set<u32> {
    set b | b in completed && WithinWindow(b, current)
  }

  /** Forget the block's decoder, remember its id, and slide the window. */
  function Closed(s: Decoder, blockId: u32): Decoder {
    s.(blocks := PruneBlocks(s.blocks - {blockId}, blockId),
       completed := PruneCompleted(s.completed + {blockId}, blockId))
  }

  predicate SameGeometry(block: BlockState, header: Header) {
    && block.transferLength == header.transferLength
    && block.sourceSymbols == header.sourceSymbols
    && block.symbolSize == header.symbolSize
  }

  function AddSymbol(received: Received, packet: Packet): Received {
    if packet.esi in received then received else received[packet.esi := packet.symbol]
  }

  function OpenBlock(s: Decoder, header: Header): BlockState {
    if header.blockId in s.blocks then s.blocks[header.blockId]
    else BlockState(map[], header.transferLength, header.sourceSymbols, header.symbolSize)
  }

  /** What a parsed datagram does to the open and closed blocks. */
  function Accepted(code: Code, s: Decoder, arrival: Arrival): (Decoder, PushResult) {
    var Arrival(header, packet) := arrival;
    var id := header.blockId;
    if id in s.completed then (s, Success(None))
    else if packet.sourceBlock != 0 then (s, Failure(UnsupportedSourceBlockNumber(packet.sourceBlock)))
    else if |packet.symbol| != header.symbolSize then (s, Failure(SymbolSizeMismatch(header.symbolSize, |packet.symbol|)))
    else if id in s.blocks && !SameGeometry(s.blocks[id], header) then
      (s.(blocks := s.blocks - {id}), Failure(InconsistentBlockGeometry(id)))
    else
      var block := OpenBlock(s, header);
      var received := AddSymbol(block.received, packet);
      match code.decode(Oti(header.transferLength, header.symbolSize), received)
      case None => (s.(blocks := s.blocks[id := block.(received := received)]), Success(None))
      case Some(decoded) => (Closed(s, id), Success(Some(decoded)))
  }

  /** `push_datagram` */
  function Pushed(code: Code, s: Decoder, datagram: Bytes): (Decoder, PushResult) {
    match Parse(datagram)
    case Failure(error) => (s, Failure(error))
    case Success(arrival) =>
      Accepted(code, s.(tracker := Observed(s.tracker, arrival.header.packetSequence).0), arrival)
  }

  class DatagramFecDecoder {
    const code: Code
    const tracker: SequenceTracker
    var blocks: map<u32, BlockState>
    var completed: set<u32>

    ghost function Abs(): Decoder
      reads this, tracker
    {
      Decoder(blocks, completed, tracker.Abs())
    }

    constructor (code: Code)
      ensures Abs() == IDLE && fresh(tracker) && this.code == code
    {
      this.code := code;
      tracker := new SequenceTracker();
      blocks, completed := map[], {};
    }

    method PushDatagram(datagram: Bytes) returns (r: PushResult)
      modifies this, tracker
      ensures (Abs(), r) == Pushed(code, old(Abs()), datagram)
    {
      var parsed := Parse(datagram);
      if parsed.Failure? {
        return Failure(parsed.error);
      }
      var Arrival(header, packet) := parsed.value;
      var _ := tracker.Observe(header.packetSequence);
      var id := header.blockId;
      if id in completed {
        return Success(None);
      }
      if packet.sourceBlock != 0 {
        return Failure(UnsupportedSourceBlockNumber(packet.sourceBlock));
      }
      if |packet.symbol| != header.symbolSize {
        return Failure(SymbolSizeMismatch(header.symbolSize, |packet.symbol|));
      }
      if id in blocks && !SameGeometry(blocks[id], header) {
        blocks := blocks - {id};
        return Failure(InconsistentBlockGeometry(id));
      }
      var block := if id in blocks then blocks[id]
                   else BlockState(map[], header.transferLength, header.sourceSymbols, header.symbolSize);
      var received := AddSymbol(block.received, packet);
      var decoded := code.decode(Oti(header.transferLength, header.symbolSize), received);
      if decoded.None? {
        blocks := blocks[id := block.(received := received)];
        return Success(None);
      }
      ExpireBlock(id);
      r := Success(Some(decoded.value));
    }

    method ExpireBlock(blockId: u32)
      modifies this
      ensures Abs() == Closed(old(Abs()), blockId)
    {
      blocks := blocks - {blockId};
      completed := completed + {blockId};
      Prune(blockId);
      assert blocks == Closed(old(Abs()), blockId).blocks;
      assert completed == Closed(old(Abs()), blockId).completed;
    }

    /** Ids more than 64 below the current one are forgotten, open blocks keep what they hold. */
    method Prune(current: u32)
      modifies `blocks, `completed
      ensures forall b :: b in blocks <==> b in old(blocks) && current <= b + 64
      ensures forall b | b in blocks :: blocks[b] == old(blocks)[b]
      ensures forall b :: b in completed <==> b in old(completed) && current <= b + 64
      ensures current in old(completed) ==> current in completed
    {
      var cutoff := WrapSub32(current, COMPLETED_WINDOW);
      blocks := map b | b in blocks && (current < COMPLETED_WINDOW || b >= cutoff) :: blocks[b];
      completed := set b | b in completed && (current < COMPLETED_WINDOW || b >= cutoff);
    }
  }

  // ----- at most one delivery within the window

  datatype Event = Push(datagram: Bytes) | Expire(blockId: u32)

  /** A block that stopped being open, and whether its object was handed out. */
  datatype Closure = Closure(blockId: u32, delivered: bool)

  function Step(code: Code, s: Decoder, event: Event): (Decoder, seq<Closure>) {
    match event
    case Push(datagram) =>
      var (s', r) := Pushed(code, s, datagram);
      (s', if r.Success? && r.value.Some? then [Closure(Parse(datagram).value.header.blockId, true)] else [])
    case Expire(blockId) => (Closed(s, blockId), [Closure(blockId, false)])
  }

  function Replay(code: Code, events: seq<Event>): (Decoder, seq<Closure>) {
    if events == [] then (IDLE, []) else
      var (s, log) := Replay(code, events[..|events| - 1]);
      var (s', closures) := Step(code, s, events[|events| - 1]);
      (s', log + closures)
  }

  /** Every closure is still suppressed, or a later closure lies more than the window ahead of it. */
  ghost predicate Suppressed(completed: set<u32>, log: seq<Closure>) {
    forall i | 0 <= i < |log| ::
      log[i].blockId in completed || Overtaken(log, i, |log|)
  }

  ghost predicate Overtaken(log: seq<Closure>, i: nat, end: nat)
    requires i < |log| && end <= |log|
  {
    exists k | i < k < end :: log[k].blockId >= log[i].blockId + COMPLETED_WINDOW + 1
  }

  lemma ClosedSuppresses(s: Decoder, log: seq<Closure>, blockId: u32, delivered: bool)
    requires Suppressed(s.completed, log)
    ensures Suppressed(Closed(s, blockId).completed, log + [Closure(blockId, delivered)])
  {
    var log' := log + [Closure(blockId, delivered)];
    forall i | 0 <= i < |log'|
      ensures log'[i].blockId in Closed(s, blockId).completed || Overtaken(log', i, |log'|)
    {
      if i < |log| {
        if log[i].blockId in s.completed {
          if !WithinWindow(log[i].blockId, blockId) {
            assert log'[|log|].blockId >= log'[i].blockId + COMPLETED_WINDOW + 1;
          }
        } else {
          var k :| i < k < |log| && log[k].blockId >= log[i].blockId + COMPLETED_WINDOW + 1;
          assert log'[k] == log[k];
        }
      }
    }
  }

  lemma {:induction false} RunSuppresses(code: Code, events: seq<Event>)
    ensures Suppressed(Replay(code, events).0.completed, Replay(code, events).1)
  {
    if events != [] {
      var before, event := events[..|events| - 1], events[|events| - 1];
      RunSuppresses(code, before);
      var s, log := Replay(code, before).0, Replay(code, before).1;
      var s', closures := Step(code, s, event).0, Step(code, s, event).1;
      if closures != [] {
        ClosedSuppresses(s, log, closures[0].blockId, closures[0].delivered);
        assert closures == [closures[0]];
      } else {
        assert s'.completed == s.completed && log + closures == log;
      }
    }
  }

  /** A delivery happens only for a block that is not suppressed. */
  lemma {:induction false} DeliveredWasOpen(code: Code, events: seq<Event>, i: nat, j: nat)
    requires i < j < |Replay(code, events).1|
    requires Replay(code, events).1[j].delivered
    requires Replay(code, events).1[i].blockId == Replay(code, events).1[j].blockId
    ensures Overtaken(Replay(code, events).1, i, j)
  {
    var before, event := events[..|events| - 1], events[|events| - 1];
    var s, log := Replay(code, before).0, Replay(code, before).1;
    var closures := Step(code, s, event).1;
    var log' := log + closures;
    assert Replay(code, events).1 == log';
    if j < |log| {
      DeliveredWasOpen(code, before, i, j);
      var k :| i < k < j && log[k].blockId >= log[i].blockId + COMPLETED_WINDOW + 1;
      assert log'[k] == log[k];
    } else {
      RunSuppresses(code, before);
      assert log'[j] == closures[0] && log[i].blockId !in s.completed;
      var k :| i < k < |log| && log[k].blockId >= log[i].blockId + COMPLETED_WINDOW + 1;
      assert log'[k] == log[k];
    }
  }

  /**
   Over any run of arbitrary datagrams and expiries, between a closure of a block and a later
   delivery of it some block with an id at least 65 higher was delivered or expired.
   */
  lemma DeliveredOncePerWindow(code: Code, events: seq<Event>, i: nat, j: nat)
    requires i < j < |Replay(code, events).1|
    requires Replay(code, events).1[j].delivered
    requires Replay(code, events).1[i].blockId == Replay(code, events).1[j].blockId
    ensures exists k | i < k < j :: Replay(code, events).1[k].blockId >= Replay(code, events).1[i].blockId + 65
  {
    DeliveredWasOpen(code, events, i, j);
    var log := Replay(code, events).1;
    var k :| i < k < j && log[k].blockId >= log[i].blockId + COMPLETED_WINDOW + 1;
  }

  // ----- genuine flows

  /** The true object of a block and the symbol size it was cut with. */
  datatype Source = Source(data: Bytes, symbolSize: u16) {
    ghost predicate Valid() {
      && 0 < |data| <= U32_MAX
      && symbolSize > 0
      && Oti(|data|, symbolSize).SourceSymbols() <= MAX_SOURCE_SYMBOLS_PER_BLOCK
    }

    function SourceSymbols(): nat
      requires |data| > 0 && symbolSize > 0
    {
      Oti(|data|, symbolSize).SourceSymbols()
    }
  }

  ghost predicate Matches(header: Header, source: Source)
    requires source.Valid()
  {
    && header.transferLength == |source.data|
    && header.symbolSize == source.symbolSize
    && header.sourceSymbols == source.SourceSymbols()
  }

  /** The arrival is a symbol the sender made from this block's object. */
  ghost predicate GenuineArrival(code: Code, source: Source, arrival: Arrival) {
    && source.Valid()
    && Matches(arrival.header, source)
    && arrival.packet.sourceBlock == 0
    && arrival.packet.symbol == code.symbol(source.data, source.symbolSize, arrival.packet.esi)
  }

  ghost predicate GenuineBlock(code: Code, source: Source, block: BlockState) {
    && source.Valid()
    && block.transferLength == |source.data|
    && block.symbolSize == source.symbolSize
    && block.sourceSymbols == source.SourceSymbols()
    && code.Genuine(source.data, source.symbolSize, block.received)
  }

  ghost predicate GenuineState(code: Code, sources: map<u32, Source>, s: Decoder) {
    forall b | b in s.blocks :: b in sources && GenuineBlock(code, sources[b], s.blocks[b])
  }

  /** Symbols held for a block; none when it has no decoder. */
  function Held(s: Decoder, blockId: u32): Received {
    if blockId in s.blocks then s.blocks[blockId].received else map[]
  }

  /** How a genuine symbol of a block that is not closed is taken in. */
  function TakenIn(s: Decoder, arrival: Arrival): Decoder {
    var block := OpenBlock(s, arrival.header);
    s.(blocks := s.blocks[arrival.header.blockId := block.(received := AddSymbol(block.received, arrival.packet))])
  }

  lemma GenuineOutcome(code: Code, sources: map<u32, Source>, s: Decoder, arrival: Arrival)
    requires code.Lawful() && GenuineState(code, sources, s)
    requires arrival.header.blockId in sources && arrival.header.blockId !in s.completed
    requires GenuineArrival(code, sources[arrival.header.blockId], arrival)
    ensures var id := arrival.header.blockId;
            var source := sources[id];
            var held := AddSymbol(Held(s, id), arrival.packet);
            var decoded := code.decode(Oti(|source.data|, source.symbolSize), held);
            && code.Genuine(source.data, source.symbolSize, held)
            && Accepted(code, s, arrival) == (if decoded.None? then (TakenIn(s, arrival), Success(None))
                                              else (Closed(s, id), Success(decoded)))
  {
    var id := arrival.header.blockId;
    var source := sources[id];
    assert code.LawfulSymbol(source.data, source.symbolSize, arrival.packet.esi);
    var held := AddSymbol(Held(s, id), arrival.packet);
    assert OpenBlock(s, arrival.header).received == Held(s, id);
    assert code.Genuine(source.data, source.symbolSize, held);
  }

  /** From genuine symbols the code gives the true object or nothing. */
  lemma GenuineDecode(code: Code, source: Source, held: Received)
    requires code.Lawful() && source.Valid() && code.Genuine(source.data, source.symbolSize, held)
    ensures var decoded := code.decode(Oti(|source.data|, source.symbolSize), held);
            decoded.None? || decoded == Some(source.data)
  {
    assert code.LawfulDecode(source.data, source.symbolSize, held);
  }

  lemma TakenInGenuine(code: Code, sources: map<u32, Source>, s: Decoder, arrival: Arrival)
    requires GenuineState(code, sources, s)
    requires arrival.header.blockId in sources
    requires GenuineArrival(code, sources[arrival.header.blockId], arrival)
    ensures GenuineState(code, sources, TakenIn(s, arrival))
    ensures GenuineState(code, sources, Closed(s, arrival.header.blockId))
    ensures Held(TakenIn(s, arrival), arrival.header.blockId)
            == AddSymbol(Held(s, arrival.header.blockId), arrival.packet)
  {
  }

  // ----- one genuine datagram

  /** Symbol ids held for a block. */
  function HeldIds(s: Decoder, blockId: u32): set<nat> {
    Held(s, blockId).Keys
  }

  /** The symbols of a block with these ids. */
  function SymbolsOf(code: Code, source: Source, ids: set<nat>): Received {
    map esi | esi in ids :: code.symbol(source.data, source.symbolSize, esi)
  }

  /** The code recovers the object from the symbols with these ids. */
  ghost predicate Decodes(code: Code, source: Source, ids: set<nat>)
    requires source.Valid()
  {
    code.decode(Oti(|source.data|, source.symbolSize), SymbolsOf(code, source, ids)).Some?
  }

  ghost predicate AllBelow(ids: set<nat>, count: nat) {
    forall x: nat | x < count :: x in ids
  }

  /** All source symbols suffice, and fewer than K symbols never do. */
  lemma DecodesWhen(code: Code, source: Source, ids: set<nat>)
    requires code.Lawful() && source.Valid()
    ensures AllBelow(ids, source.SourceSymbols()) ==> Decodes(code, source, ids)
    ensures Decodes(code, source, ids) ==> |ids| >= source.SourceSymbols()
  {
    var received := SymbolsOf(code, source, ids);
    assert code.LawfulDecode(source.data, source.symbolSize, received);
    assert |received| == |received.Keys| && received.Keys == ids;
  }

  lemma DecodesHeld(code: Code, source: Source, held: Received)
    requires source.Valid() && code.Genuine(source.data, source.symbolSize, held)
    ensures Decodes(code, source, held.Keys) <==> code.decode(Oti(|source.data|, source.symbolSize), held).Some?
  {
    assert SymbolsOf(code, source, held.Keys) == held;
  }

  lemma SelfWithin(b: u32)
    ensures WithinWindow(b, b)
  {
  }

  /** Block `b` closes: the others lose their symbols to the window or keep them. */
  ghost predicate Closes(s: Decoder, s': Decoder, b: u32) {
    && s'.blocks.Keys <= s.blocks.Keys - {b}
    && (forall x | x in s'.completed :: x in s.completed || x == b)
    && (forall x | x != b && WithinWindow(x, b) :: HeldIds(s', x) == HeldIds(s, x))
    && (forall x | x == b || !WithinWindow(x, b) :: HeldIds(s', x) == {})
  }

  /** Block `b` gets a symbol, and nothing else changes. */
  ghost predicate TakesIn(s: Decoder, s': Decoder, b: u32, esi: nat) {
    && s'.blocks.Keys == s.blocks.Keys + {b}
    && s'.completed == s.completed
    && HeldIds(s', b) == HeldIds(s, b) + {esi}
    && (forall x | x != b :: HeldIds(s', x) == HeldIds(s, x))
  }

  lemma ClosedCloses(s: Decoder, b: u32)
    ensures Closes(s, Closed(s, b), b)
  {
  }

  lemma TakenTakesIn(s: Decoder, arrival: Arrival)
    ensures TakesIn(s, TakenIn(s, arrival), arrival.header.blockId, arrival.packet.esi)
  {
  }

  /**
   What a genuine symbol does: it is ignored when its block is closed; otherwise the block closes with
   its object if the code can decode the symbols now held, and the symbol is kept if it cannot.
   */
  ghost predicate Steps(code: Code, source: Source, s: Decoder, s': Decoder, r: PushResult, b: u32, esi: nat)
    requires source.Valid()
  {
    if b in s.completed then r == Success(None) && s'.completed == s.completed && s'.blocks == s.blocks
    else if Decodes(code, source, HeldIds(s, b) + {esi}) then r == Success(Some(source.data)) && Closes(s, s', b)
    else r == Success(None) && TakesIn(s, s', b, esi)
  }

  lemma AcceptedSteps(code: Code, sources: map<u32, Source>, s: Decoder, arrival: Arrival)
    requires code.Lawful() && GenuineState(code, sources, s) && arrival.header.blockId in sources
    requires GenuineArrival(code, sources[arrival.header.blockId], arrival)
    ensures var b := arrival.header.blockId;
            var (s', r) := Accepted(code, s, arrival);
            GenuineState(code, sources, s') && Steps(code, sources[b], s, s', r, b, arrival.packet.esi)
  {
    hide Source.SourceSymbols, Closed, TakenIn, TakesIn, Closes, Decodes, Code.Lawful, OpenBlock, AddSymbol;
    var b := arrival.header.blockId;
    if b !in s.completed {
      hide Accepted;
      GenuineOutcome(code, sources, s, arrival);
      var held := AddSymbol(Held(s, b), arrival.packet);
      GenuineDecode(code, sources[b], held);
      DecodesHeld(code, sources[b], held);
      TakenInGenuine(code, sources, s, arrival);
      HeldGrows(s, b, arrival.packet);
      ClosedCloses(s, b);
      TakenTakesIn(s, arrival);
    }
  }

  lemma HeldGrows(s: Decoder, b: u32, packet: Packet)
    ensures AddSymbol(Held(s, b), packet).Keys == HeldIds(s, b) + {packet.esi}
  {
  }

  /** One genuine datagram, from its bytes. */
  lemma GenuineStep(code: Code, sources: map<u32, Source>, s: Decoder, datagram: Bytes)
    requires code.Lawful() && GenuineState(code, sources, s) && Parse(datagram).Success?
    requires Parse(datagram).value.header.blockId in sources
    requires GenuineArrival(code, sources[Parse(datagram).value.header.blockId], Parse(datagram).value)
    ensures var b := Parse(datagram).value.header.blockId;
            var (s', r) := Pushed(code, s, datagram);
            GenuineState(code, sources, s') && Steps(code, sources[b], s, s', r, b, Parse(datagram).value.packet.esi)
  {
    hide Parse, Observed, GenuineArrival, GenuineBlock, Accepted, Steps, Source.Valid, Code.Lawful;
    var arrival := Parse(datagram).value;
    var tracked := s.(tracker := Observed(s.tracker, arrival.header.packetSequence).0);
    var b := arrival.header.blockId;
    AcceptedSteps(code, sources, tracked, arrival);
    SourceIsValid(code, sources[b], arrival);
    TrackerIrrelevant(code, sources[b], s, tracked, Pushed(code, s, datagram).0, Pushed(code, s, datagram).1, b,
                      arrival.packet.esi);
  }

  lemma SourceIsValid(code: Code, source: Source, arrival: Arrival)
    requires GenuineArrival(code, source, arrival)
    ensures source.Valid()
  {
  }

  lemma TrackerIrrelevant(code: Code, source: Source, s: Decoder, tracked: Decoder, s': Decoder, r: PushResult, b: u32, esi: nat)
    requires source.Valid() && tracked.blocks == s.blocks && tracked.completed == s.completed
    requires Steps(code, source, tracked, s', r, b, esi)
    ensures Steps(code, source, s, s', r, b, esi)
  {
    hide Source.Valid, Source.SourceSymbols, Decodes;
    assert forall x :: HeldIds(tracked, x) == HeldIds(s, x);
  }

  // ----- refusals

  /** Why bytes are not a packet, in the order of the checks. */
  lemma ParseRefused(datagram: Bytes)
    ensures var r := Parse(datagram);
            if |datagram| < 36 then r == Failure(PacketTooShort(|datagram|))
            else if DecodeHeader(datagram).Failure? then r == Failure(DecodeHeader(datagram).error)
            else
              var h := DecodeHeader(datagram).value;
              if h.Payload(datagram).Failure? then r == Failure(h.Payload(datagram).error)
              else if h.payloadLen < 4 then r == Failure(PacketTooShort(|datagram|))
              else r.Success? && r.value.header == h && r.value.packet == DeserializePacket(datagram[32..32 + h.payloadLen])
  {
    hide DecodeHeader, Header.Payload, DeserializePacket, Header.AudioSessionId;
    if |datagram| >= 36 && DecodeHeader(datagram).Success? {
      PayloadAccepted(datagram);
    }
  }

  /**
   Whatever arrives, a packet of a closed block is ignored, one of another source block or of another
   length than declared is refused and changes nothing, one of another geometry than its block's is refused
   and costs the block what it held; no other packet is refused.
   */
  lemma AcceptedOrRefused(code: Code, s: Decoder, arrival: Arrival)
    ensures var (s', r) := Accepted(code, s, arrival);
            var (h, p, id) := (arrival.header, arrival.packet, arrival.header.blockId);
            if id in s.completed then r == Success(None) && s' == s
            else if p.sourceBlock != 0 then r == Failure(UnsupportedSourceBlockNumber(p.sourceBlock)) && s' == s
            else if |p.symbol| != h.symbolSize then r == Failure(SymbolSizeMismatch(h.symbolSize, |p.symbol|)) && s' == s
            else if id in s.blocks && !(h.transferLength == s.blocks[id].transferLength
                                        && h.sourceSymbols == s.blocks[id].sourceSymbols
                                        && h.symbolSize == s.blocks[id].symbolSize) then
              && r == Failure(InconsistentBlockGeometry(id))
              && s'.completed == s.completed && s'.blocks.Keys == s.blocks.Keys - {id}
              && forall b | b in s'.blocks :: s'.blocks[b] == s.blocks[b]
            else r.Success?
  {
  }

  /** Closing a block forgets it and everything more than 64 ids behind it, and remembers that it is closed. */
  lemma ClosedIs(s: Decoder, id: u32)
    ensures var s' := Closed(s, id);
            && (forall b :: b in s'.blocks <==> b in s.blocks && b != id && b + 64 >= id)
            && (forall b | b in s'.blocks :: s'.blocks[b] == s.blocks[b])
            && (forall b :: b in s'.completed <==> b == id || (b in s.completed && b + 64 >= id))
            && s'.tracker == s.tracker
  {
  }
}
