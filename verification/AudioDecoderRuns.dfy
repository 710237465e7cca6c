/** What the audio decoder keeps over every run, malformed datagrams and error returns included. */
module AudioDecoderRuns {
  import opened AudioDecoding
  import opened ByteCodec
  import opened ClosedWindows
  import opened Collections
  import opened Datagram
  import opened FecDecoding
  import opened MachineInts
  import opened RaptorQ
  import opened ShardHeaders
  import opened Wrappers
  import Crc32

  /** Queues enumerate their sets; open and delivered blocks are not closed ones. */
  ghost predicate Linked(s: Flow) {
    && 0 < s.maxInFlight && 0 < s.maxCompleted
    && Enumerates(s.inFlightOrder, s.inFlight)
    && Ok(s.completed, s.maxCompleted)
    && s.fec.blocks.Keys <= s.inFlight
    && s.inFlight !! s.completed.members
    && s.delivered.Keys !! s.completed.members
  }

  ghost predicate Consistent(s: Flow) {
    Linked(s) && |s.inFlight| <= s.maxInFlight
  }

  /** `id` entered the completed window between two states. */
  ghost predicate ClosedBetween(s: Flow, s': Flow, id: u32) {
    exists k :: |s.completed.history| <= k < |s'.completed.history| && s'.completed.history[k] == id
  }

  /** What was delivered stays marked until its block is closed. */
  ghost predicate MarksKept(s: Flow, s': Flow) {
    && s.completed.history <= s'.completed.history
    && s'.maxCompleted == s.maxCompleted && s'.maxInFlight == s.maxInFlight
    && forall b | b in s.delivered :: DeliveredOf(s, b) <= DeliveredOf(s', b) || ClosedBetween(s, s', b)
  }

  lemma MarksKeptTransitive(s: Flow, t: Flow, u: Flow)
    requires MarksKept(s, t) && MarksKept(t, u)
    ensures MarksKept(s, u)
  {
    forall b | b in s.delivered ensures DeliveredOf(s, b) <= DeliveredOf(u, b) || ClosedBetween(s, u, b) {
      if ClosedBetween(s, t, b) {
        var k :| |s.completed.history| <= k < |t.completed.history| && t.completed.history[k] == b;
        assert u.completed.history[k] == b;
      } else if b in t.delivered && ClosedBetween(t, u, b) {
        var k :| |t.completed.history| <= k < |u.completed.history| && u.completed.history[k] == b;
        assert |s.completed.history| <= k;
      }
    }
  }

  lemma NewIsConsistent(maxInFlight: nat, maxCompleted: nat)
    ensures Consistent(NewFlow(maxInFlight, maxCompleted))
  {
  }

  lemma CloseKeeps(s: Flow, id: u32)
    requires Linked(s) && id !in s.fec.blocks
    ensures var s' := CloseBlock(s, id);
            && Linked(s') && (Consistent(s) ==> Consistent(s'))
            && MarksKept(s, s')
            && id in s'.completed.members
            && (id !in s.completed.members ==> s'.completed.history == s.completed.history + [id])
  {
    hide Remembered;
    EnumeratesWithout(s.inFlightOrder, s.inFlight, id);
    RememberedOk(s.completed, id, s.maxCompleted);
    var s' := CloseBlock(s, id);
    if id in s.delivered {
      assert s'.completed.history[|s.completed.history|] == id;
    }
  }

  /** One round of the eviction loop. */
  function EvictFirst(s: Flow): Flow
    requires s.inFlightOrder != []
  {
    var oldest := s.inFlightOrder[0];
    RememberClosed(s.(inFlightOrder := s.inFlightOrder[1..], inFlight := s.inFlight - {oldest},
                      fec := Closed(s.fec, oldest), delivered := s.delivered - {oldest}), oldest)
  }

  lemma EvictIsOneRound(s: Flow)
    requires Linked(s) && |s.inFlight| == s.maxInFlight + 1
    ensures s.inFlightOrder != [] && EvictOldest(s) == EvictFirst(s)
    ensures |EvictFirst(s).inFlight| == s.maxInFlight
  {
    hide Remembered;
    EnumerationSize(s.inFlightOrder, s.inFlight);
    EnumeratesTail(s.inFlightOrder, s.inFlight);
    assert EvictOldest(s) == EvictOldest(EvictFirst(s));
  }

  ghost predicate KeepsOpen(s: Flow, s': Flow, newest: u32) {
    && Consistent(s') && MarksKept(s, s')
    && newest in s'.inFlight && newest !in s'.completed.members
    && s'.delivered.Keys <= s.delivered.Keys
    && (forall b | b in s'.delivered :: s'.delivered[b] == s.delivered[b])
    && (newest in s.delivered ==> newest in s'.delivered)
    && (forall b | b in s'.fec.blocks :: b in s.fec.blocks && s'.fec.blocks[b] == s.fec.blocks[b])
  }

  lemma EvictFirstLinked(s: Flow)
    requires Linked(s) && s.inFlightOrder != []
    ensures Linked(EvictFirst(s))
    ensures EvictFirst(s).completed.history == s.completed.history + [s.inFlightOrder[0]]
  {
    hide Remembered, Ok;
    var oldest := s.inFlightOrder[0];
    EnumeratesTail(s.inFlightOrder, s.inFlight);
    RememberedOk(s.completed, oldest, s.maxCompleted);
  }

  lemma EvictFirstMarks(s: Flow)
    requires Linked(s) && s.inFlightOrder != []
    ensures MarksKept(s, EvictFirst(s))
    ensures var s' := EvictFirst(s);
            && s'.delivered == s.delivered - {s.inFlightOrder[0]}
            && (forall b | b in s'.fec.blocks :: b in s.fec.blocks && s'.fec.blocks[b] == s.fec.blocks[b])
  {
    EvictFirstLinked(s);
    hide Remembered, Linked;
    var s' := EvictFirst(s);
    assert s'.completed.history[|s.completed.history|] == s.inFlightOrder[0];
  }

  /** The newest block survives the eviction of the oldest. */
  lemma NewestStays(order: seq<u32>, members: set<u32>, newest: u32)
    requires Enumerates(order, members) && |members| > 1 && order != [] && order[|order| - 1] == newest
    ensures newest != order[0] && newest in members
  {
    EnumerationSize(order, members);
  }

  /** Evicting the oldest block, when one block too many is open, leaves the newest one open. */
  lemma EvictKeeps(s: Flow, newest: u32)
    requires Linked(s) && |s.inFlight| <= s.maxInFlight + 1
    requires s.inFlightOrder != [] && s.inFlightOrder[|s.inFlightOrder| - 1] == newest
    ensures KeepsOpen(s, EvictOldest(s), newest)
  {
    hide Remembered, MarksKept;
    if |s.inFlight| > s.maxInFlight {
      EvictIsOneRound(s);
      EvictFirstLinked(s);
      EvictFirstMarks(s);
      NewestStays(s.inFlightOrder, s.inFlight, newest);
      hide EvictOldest, Closed, Enumerates, Ok;
    } else {
      assert EvictOldest(s) == s;
      NoChange(s);
    }
  }

  lemma NoChange(s: Flow)
    ensures MarksKept(s, s)
  {
  }

  /** Consistent, but for a block decoder that was just started for `id`. */
  ghost predicate Opening(s: Flow, id: u32) {
    Consistent(s.(fec := s.fec.(blocks := s.fec.blocks - {id}))) && id !in s.completed.members
  }

  /** Opening a block keeps everything, and the block itself is open afterwards. */
  lemma ObserveKeeps(s: Flow, id: u32)
    requires Opening(s, id)
    ensures KeepsOpen(s, ObserveInFlight(s, id), id)
  {
    hide EvictOldest;
    if id !in s.inFlight {
      EnumeratesAppend(s.inFlightOrder, s.inFlight, id);
      var t := s.(inFlight := s.inFlight + {id}, inFlightOrder := s.inFlightOrder + [id]);
      EvictKeeps(t, id);
    }
  }

  // ----- what one delivery emits

  ghost predicate FromBlock(shard: Shard, id: u32) {
    && shard.blockId == id
    && shard.header.groupIndex < shard.header.groupCount
    && shard.header.fragmentIndex < shard.header.fragmentCount
    && |shard.payload| == shard.header.payloadLen
    && shard.header.payloadOffset + |shard.payload| <= shard.header.groupPayloadLen
  }

  /** Shards of one block, none delivered before, no two with the same source index, all marked now. */
  ghost predicate Emits(output: seq<Shard>, id: u32, before: set<u16>, marked: set<u16>) {
    && (forall i | 0 <= i < |output| ::
          FromBlock(output[i], id) && output[i].header.sourceIndex !in before && output[i].header.sourceIndex in marked)
    && (forall i, j | 0 <= i < j < |output| :: output[i].header.sourceIndex != output[j].header.sourceIndex)
  }

  lemma {:induction false} FillEmits(id: u32, count: u16, symbolSize: u16, symbols: Bytes, i: nat, delivered: set<u16>)
    requires i <= count && |symbols| == symbolSize * count
    ensures var filled := FillHoles(id, count, symbolSize, symbols, i, delivered);
            delivered <= filled.delivered && Emits(filled.output, id, delivered, filled.delivered)
    decreases count - i
  {
    hide DecodeSymbol, SymbolSlice;
    if i < count && i !in delivered {
      var symbol := SymbolSlice(symbols, symbolSize, count, i);
      var shard := DecodeSymbol(id, symbol, count, i, Repaired);
      if shard.Success? {
        DecodedShardInRange(id, symbol, count, i, Repaired);
        FillEmits(id, count, symbolSize, symbols, i + 1, delivered + {i});
      }
    } else if i < count {
      FillEmits(id, count, symbolSize, symbols, i + 1, delivered);
    }
  }

  lemma EmitsSorted(output: seq<Shard>, id: u32, before: set<u16>, marked: set<u16>)
    requires Emits(output, id, before, marked)
    ensures Emits(StableSort(BySourceIndex, output), id, before, marked)
  {
    hide StableSort;
    var sorted := StableSort(BySourceIndex, output);
    SortMembers(BySourceIndex, output);
    forall i | 0 <= i < |sorted|
      ensures FromBlock(sorted[i], id) && sorted[i].header.sourceIndex !in before && sorted[i].header.sourceIndex in marked
    {
      assert sorted[i] in output;
    }
    SortKeepsDistinct(output);
  }

  ghost predicate DistinctIndices(output: seq<Shard>) {
    forall i, j | 0 <= i < j < |output| :: output[i].header.sourceIndex != output[j].header.sourceIndex
  }

  lemma {:induction false} InsertKeepsDistinct(x: Shard, s: seq<Shard>)
    requires DistinctIndices(s)
    requires forall i | 0 <= i < |s| :: s[i].header.sourceIndex != x.header.sourceIndex
    ensures DistinctIndices(InsertSorted(BySourceIndex, x, s))
  {
    if s != [] && !BySourceIndex(x, s[0]) {
      InsertKeepsDistinct(x, s[1..]);
      var rest := InsertSorted(BySourceIndex, x, s[1..]);
      InsertMembers(BySourceIndex, x, s[1..]);
      forall i | 0 <= i < |rest| ensures rest[i].header.sourceIndex != s[0].header.sourceIndex {
        assert rest[i] in multiset(rest);
        assert rest[i] == x || rest[i] in s[1..];
      }
    }
  }

  lemma {:induction false} SortKeepsDistinct(s: seq<Shard>)
    requires DistinctIndices(s)
    ensures DistinctIndices(StableSort(BySourceIndex, s))
  {
    if s != [] {
      SortKeepsDistinct(s[1..]);
      SortMembers(BySourceIndex, s[1..]);
      var rest := StableSort(BySourceIndex, s[1..]);
      forall i | 0 <= i < |rest| ensures rest[i].header.sourceIndex != s[0].header.sourceIndex {
        assert rest[i] in s[1..];
      }
      InsertKeepsDistinct(s[0], rest);
    }
  }

  /** What a successful call emitted, and where it is remembered. */
  ghost predicate EmittedFresh(s: Flow, s': Flow, id: u32, output: seq<Shard>) {
    exists marked :: MarkedBy(s, s', id, output, marked)
  }

  ghost predicate MarkedBy(s: Flow, s': Flow, id: u32, output: seq<Shard>, marked: set<u16>) {
    && Emits(output, id, DeliveredOf(s, id), marked)
    && id !in s.completed.members
    && (marked <= DeliveredOf(s', id)
        || (s'.completed.history != [] && s'.completed.history[|s'.completed.history| - 1] == id))
  }

  /** A block closed after everything up to `marked` was emitted. */
  lemma CloseEmits(s: Flow, id: u32, marked: set<u16>, output: seq<Shard>)
    requires Consistent(s) && id !in s.completed.members && id !in s.fec.blocks && DeliveredOf(s, id) <= marked
    requires Emits(output, id, DeliveredOf(s, id), marked)
    ensures var s' := CloseBlock(s.(delivered := s.delivered[id := marked]), id);
            && Consistent(s') && MarksKept(s, s')
            && EmittedFresh(s, s', id, StableSort(BySourceIndex, output))
  {
    hide CloseBlock, StableSort;
    var t := s.(delivered := s.delivered[id := marked]);
    var s' := CloseBlock(t, id);
    MarkMore(s, id, marked);
    CloseKeeps(t, id);
    MarksKeptTransitive(s, t, s');
    EmitsSorted(output, id, DeliveredOf(s, id), marked);
    assert MarkedBy(s, s', id, StableSort(BySourceIndex, output), marked);
  }

  lemma MarkMore(s: Flow, id: u32, marked: set<u16>)
    requires Consistent(s) && id !in s.completed.members && DeliveredOf(s, id) <= marked
    ensures var t := s.(delivered := s.delivered[id := marked]); Consistent(t) && MarksKept(s, t)
  {
  }

  lemma DeliveredKeeps(s: Flow, header: Header, candidate: Option<Shard>, recovered: Option<Bytes>)
    requires Consistent(s) && header.blockId !in s.completed.members
    requires recovered.Some? ==> header.blockId !in s.fec.blocks
    requires candidate.Some? ==> FromBlock(candidate.value, header.blockId)
    ensures var outcome := Delivered(s, header, candidate, recovered);
            && Consistent(outcome.0) && MarksKept(s, outcome.0)
            && (outcome.1.Success? ==> EmittedFresh(s, outcome.0, header.blockId, outcome.1.value))
  {
    hide DecodeSymbol, CloseBlock, FillHoles, StableSort, Consistent, MarksKept, EmittedFresh;
    var id := header.blockId;
    var outcome := Delivered(s, header, candidate, recovered);
    var before := DeliveredOf(s, id);
    var isFresh := candidate.Some? && candidate.value.header.sourceIndex !in before;
    var marked := if isFresh then before + {candidate.value.header.sourceIndex} else before;
    var output := if isFresh then [candidate.value] else [];
    assert Emits(output, id, before, marked);
    MarkMore(s, id, marked);
    if recovered.None? {
      OpenEmits(s, id, marked, output);
    } else if |recovered.value| == header.symbolSize * header.sourceSymbols {
      FillEmits(id, header.sourceSymbols, header.symbolSize, recovered.value, 0, marked);
      var filled := FillHoles(id, header.sourceSymbols, header.symbolSize, recovered.value, 0, marked);
      MarkMore(s, id, filled.delivered);
      if filled.error.None? {
        assert Emits(output + filled.output, id, before, filled.delivered);
        CloseEmits(s, id, filled.delivered, output + filled.output);
      }
    }
  }

  lemma OpenEmits(s: Flow, id: u32, marked: set<u16>, output: seq<Shard>)
    requires id !in s.completed.members && Emits(output, id, DeliveredOf(s, id), marked)
    ensures EmittedFresh(s, s.(delivered := s.delivered[id := marked]), id, StableSort(BySourceIndex, output))
  {
    hide StableSort;
    var t := s.(delivered := s.delivered[id := marked]);
    EmitsSorted(output, id, DeliveredOf(s, id), marked);
    assert MarkedBy(s, t, id, StableSort(BySourceIndex, output), marked);
  }

  // ----- one call

  /** What the block decoder does to the keys of the open blocks. */
  lemma FecKeys(code: Code, fec: Decoder, datagram: Bytes)
    requires Parse(datagram).Success?
    ensures var id := Parse(datagram).value.header.blockId;
            var (fec', r) := FecDecoding.Pushed(code, fec, datagram);
            && fec'.blocks.Keys <= fec.blocks.Keys + {id}
            && (r.Failure? ==> fec'.blocks.Keys <= fec.blocks.Keys)
            && (r.Success? && r.value.Some? ==> fec'.blocks.Keys <= fec.blocks.Keys - {id})
  {
    hide Parse;
  }

  lemma ParseFails(code: Code, fec: Decoder, datagram: Bytes)
    requires DecodeHeader(datagram).Success? && DecodeHeader(datagram).value.Payload(datagram).Success?
    requires |DecodeHeader(datagram).value.Payload(datagram).value| >= PACKET_HEADER_LEN
    ensures Parse(datagram) == Success(Arrival(DecodeHeader(datagram).value,
                                               DeserializePacket(DecodeHeader(datagram).value.Payload(datagram).value)))
  {
    hide DecodeHeader, Crc32.PacketChecksum;
  }

  /**
   Whatever the datagram: the windows stay consistent, marks survive until their block closes, and a
   successful call emits only shards of the datagram's block that are not marked yet, and marks them.
   */
  lemma PushKeeps(code: Code, s: Flow, datagram: Bytes)
    requires Consistent(s)
    ensures var outcome := PushedAudio(code, s, datagram);
            && Consistent(outcome.0) && MarksKept(s, outcome.0)
            && (outcome.1.Success? && outcome.1.value != [] ==>
                  DecodeHeader(datagram).Success?
                  && EmittedFresh(s, outcome.0, DecodeHeader(datagram).value.blockId, outcome.1.value))
  {
    hide DecodeHeader, Header.Payload, Parse, FecDecoding.Pushed, Delivered, ObserveInFlight, DecodeSymbol, EmittedFresh;
    var header := DecodeHeader(datagram);
    if header.Success? && header.value.blockId !in s.completed.members {
      var id := header.value.blockId;
      var payload := header.value.Payload(datagram);
      if payload.Success? && |payload.value| >= PACKET_HEADER_LEN {
        ParseFails(code, s.fec, datagram);
        FecKeys(code, s.fec, datagram);
        AdmittedKeeps(code, s, datagram);
      }
    }
  }

  lemma AdmittedKeeps(code: Code, s: Flow, datagram: Bytes)
    requires Consistent(s) && Parse(datagram).Success?
    requires Parse(datagram).value.header.blockId !in s.completed.members
    ensures var arrival := Parse(datagram).value;
            var outcome := Admitted(code, s, datagram, arrival);
            && Consistent(outcome.0) && MarksKept(s, outcome.0)
            && (outcome.1.Success? ==> EmittedFresh(s, outcome.0, arrival.header.blockId, outcome.1.value))
  {
    hide Parse, FecDecoding.Pushed, Delivered, ObserveInFlight, DecodeSymbol;
    var arrival := Parse(datagram).value;
    var id := arrival.header.blockId;
    var candidate := Candidate(arrival);
    if candidate.Success? {
      if candidate.value.Some? {
        DecodedShardInRange(id, arrival.packet.symbol, arrival.header.sourceSymbols, arrival.packet.esi, Systematic);
      }
      FecKeys(code, s.fec, datagram);
      var pushed := FecDecoding.Pushed(code, s.fec, datagram);
      var t := s.(fec := pushed.0);
      if pushed.1.Success? {
        if pushed.1.value.None? {
          ObserveKeeps(t, id);
          var u := ObserveInFlight(t, id);
          DeliveredKeeps(u, arrival.header, candidate.value, None);
          MarksKeptTransitive(s, u, Delivered(u, arrival.header, candidate.value, None).0);
          SameMarks(s, u, Delivered(u, arrival.header, candidate.value, None), id);
        } else {
          DeliveredKeeps(t, arrival.header, candidate.value, pushed.1.value);
          MarksKeptTransitive(s, t, Delivered(t, arrival.header, candidate.value, pushed.1.value).0);
          SameMarks(s, t, Delivered(t, arrival.header, candidate.value, pushed.1.value), id);
        }
      }
    }
  }

  /** Freshness carries over between states with the same marks for the block. */
  lemma SameMarks(s: Flow, t: Flow, outcome: (Flow, Outcome), id: u32)
    requires DeliveredOf(t, id) == DeliveredOf(s, id) && id !in s.completed.members
    requires outcome.1.Success? ==> EmittedFresh(t, outcome.0, id, outcome.1.value)
    ensures outcome.1.Success? ==> EmittedFresh(s, outcome.0, id, outcome.1.value)
  {
    if outcome.1.Success? {
      var marked :| MarkedBy(t, outcome.0, id, outcome.1.value, marked);
      assert MarkedBy(s, outcome.0, id, outcome.1.value, marked);
    }
  }

  lemma ExpireKeeps(s: Flow, blockId: u32)
    requires Consistent(s)
    ensures Consistent(ExpiredAudio(s, blockId)) && MarksKept(s, ExpiredAudio(s, blockId))
  {
    hide CloseBlock;
    var t := s.(fec := Closed(s.fec, blockId));
    assert MarksKept(s, t);
    CloseKeeps(t, blockId);
    MarksKeptTransitive(s, t, CloseBlock(t, blockId));
  }

  // ----- whole runs

  /** What one call emitted, and the lengths of the closure history before and after it. */
  datatype Emission = Emission(shards: seq<Shard>, before: nat, after: nat)

  function StepAudio(code: Code, s: Flow, event: Event): (Flow, Emission) {
    var (s', output) :=
      match event
      case Push(datagram) =>
        var (t, r) := PushedAudio(code, s, datagram);
        (t, if r.Success? then r.value else [])
      case Expire(blockId) => (ExpiredAudio(s, blockId), []);
    (s', Emission(output, |s.completed.history|, |s'.completed.history|))
  }

  function ReplayAudio(code: Code, maxInFlight: nat, maxCompleted: nat, events: seq<Event>): (Flow, seq<Emission>) {
    if events == [] then (NewFlow(maxInFlight, maxCompleted), []) else
      var (s, log) := ReplayAudio(code, maxInFlight, maxCompleted, events[..|events| - 1]);
      var (s', emission) := StepAudio(code, s, events[|events| - 1]);
      (s', log + [emission])
  }

  /** Every shard ever emitted is still marked, or its block was closed since. */
  ghost predicate Remembers(s: Flow, log: seq<Emission>) {
    forall m, i | 0 <= m < |log| && 0 <= i < |log[m].shards| :: Accounted(s, log[m], i)
  }

  ghost predicate Accounted(s: Flow, e: Emission, i: int)
    requires 0 <= i < |e.shards|
  {
    e.shards[i].header.sourceIndex in DeliveredOf(s, e.shards[i].blockId) || ClosedSince(s, e, e.shards[i].blockId)
  }

  ghost predicate ClosedSince(s: Flow, e: Emission, id: u32) {
    exists k :: e.after - 1 <= k < |s.completed.history| && 0 <= k && s.completed.history[k] == id
  }

  lemma AccountedStays(s: Flow, s': Flow, e: Emission, i: int)
    requires MarksKept(s, s') && 0 <= i < |e.shards| && e.after <= |s.completed.history|
    requires Accounted(s, e, i)
    ensures Accounted(s', e, i)
  {
    var id := e.shards[i].blockId;
    if ClosedSince(s, e, id) {
      var k :| e.after - 1 <= k < |s.completed.history| && 0 <= k && s.completed.history[k] == id;
      assert s'.completed.history[k] == id;
    } else if ClosedBetween(s, s', id) {
      var k :| |s.completed.history| <= k < |s'.completed.history| && s'.completed.history[k] == id;
      assert e.after - 1 <= k;
    }
  }

  lemma StepKeeps(code: Code, s: Flow, event: Event)
    requires Consistent(s)
    ensures var (s', e) := StepAudio(code, s, event);
            && Consistent(s') && MarksKept(s, s')
            && e.before == |s.completed.history| && e.after == |s'.completed.history|
            && DistinctIndices(e.shards)
            && (forall i | 0 <= i < |e.shards| ::
                  && e.shards[i].blockId == e.shards[0].blockId
                  && e.shards[i].blockId !in s.completed.members
                  && e.shards[i].header.sourceIndex !in DeliveredOf(s, e.shards[i].blockId)
                  && Accounted(s', e, i))
  {
    hide PushedAudio, ExpiredAudio;
    var s', e := StepAudio(code, s, event).0, StepAudio(code, s, event).1;
    match event
    case Push(datagram) =>
      PushKeeps(code, s, datagram);
      if e.shards != [] {
        var id := DecodeHeader(datagram).value.blockId;
        var marked :| MarkedBy(s, s', id, e.shards, marked);
        forall i | 0 <= i < |e.shards| ensures Accounted(s', e, i) {
          if !(marked <= DeliveredOf(s', id)) {
            assert s'.completed.history[e.after - 1] == id;
          }
        }
      }
    case Expire(blockId) =>
      ExpireKeeps(s, blockId);
  }

  lemma {:induction false} RunKeeps(code: Code, maxInFlight: nat, maxCompleted: nat, events: seq<Event>)
    ensures var (s, log) := ReplayAudio(code, maxInFlight, maxCompleted, events);
            && Consistent(s) && Remembers(s, log) && |log| == |events|
            && s.maxInFlight == Max(maxInFlight, 1) && s.maxCompleted == Max(maxCompleted, 1)
            && forall m | 0 <= m < |log| :: log[m].before <= log[m].after <= |s.completed.history|
  {
    hide StepAudio, Consistent, MarksKept, Accounted;
    if events == [] {
      NewIsConsistent(maxInFlight, maxCompleted);
    } else {
      var prior, event := events[..|events| - 1], events[|events| - 1];
      RunKeeps(code, maxInFlight, maxCompleted, prior);
      var s, log := ReplayAudio(code, maxInFlight, maxCompleted, prior).0, ReplayAudio(code, maxInFlight, maxCompleted, prior).1;
      StepKeeps(code, s, event);
      var s', e := StepAudio(code, s, event).0, StepAudio(code, s, event).1;
      HistoryGrows(s, s');
      forall m, i | 0 <= m < |log + [e]| && 0 <= i < |(log + [e])[m].shards| ensures Accounted(s', (log + [e])[m], i) {
        if m < |log| {
          AccountedStays(s, s', log[m], i);
        }
      }
    }
  }

  lemma HistoryGrows(s: Flow, s': Flow)
    requires MarksKept(s, s')
    ensures |s.completed.history| <= |s'.completed.history|
    ensures s'.maxInFlight == s.maxInFlight && s'.maxCompleted == s.maxCompleted
  {
  }

  /** The first entry of the pair was forgotten because `max` other blocks closed since. */
  lemma SeparatedNow(code: Code, s: Flow, log: seq<Emission>, event: Event, m: nat, i: nat, j: nat)
    requires Consistent(s) && Remembers(s, log) && m < |log| && log[m].after <= |s.completed.history|
    requires i < |log[m].shards| && j < |StepAudio(code, s, event).1.shards|
    requires log[m].shards[i].blockId == StepAudio(code, s, event).1.shards[j].blockId
    requires log[m].shards[i].header.sourceIndex == StepAudio(code, s, event).1.shards[j].header.sourceIndex
    ensures log[m].after + s.maxCompleted <= |s.completed.history|
    ensures forall k | |s.completed.history| - s.maxCompleted <= k < |s.completed.history| ::
              s.completed.history[k] != log[m].shards[i].blockId
  {
    StepKeeps(code, s, event);
    hide StepAudio;
    var id := log[m].shards[i].blockId;
    assert Accounted(s, log[m], i);
    assert ClosedSince(s, log[m], id);
    var k :| log[m].after - 1 <= k < |s.completed.history| && 0 <= k && s.completed.history[k] == id;
    ForgottenAfterMax(s.completed, s.maxCompleted, k);
  }

  /**
   Over any run of arbitrary datagrams and expiries: one call never emits a source index twice, and
   between two calls that emit the same source index of the same block at least `max` other blocks
   were closed, the last `max` closures all being of other blocks.
   */
  lemma {:induction false} EmissionsSeparated(code: Code, maxInFlight: nat, maxCompleted: nat, events: seq<Event>,
                                              m: nat, i: nat, n: nat, j: nat)
    requires var (s, log) := ReplayAudio(code, maxInFlight, maxCompleted, events);
             && m < n < |log| && i < |log[m].shards| && j < |log[n].shards|
             && log[m].shards[i].blockId == log[n].shards[j].blockId
             && log[m].shards[i].header.sourceIndex == log[n].shards[j].header.sourceIndex
    ensures var (s, log) := ReplayAudio(code, maxInFlight, maxCompleted, events);
            && log[m].after + Max(maxCompleted, 1) <= log[n].before <= |s.completed.history|
            && forall k | log[n].before - Max(maxCompleted, 1) <= k < log[n].before ::
                 s.completed.history[k] != log[n].shards[j].blockId
    decreases |events|
  {
    hide StepAudio, Remembers;
    var prior, event := events[..|events| - 1], events[|events| - 1];
    var s := ReplayAudio(code, maxInFlight, maxCompleted, prior).0;
    var log := ReplayAudio(code, maxInFlight, maxCompleted, prior).1;
    var s', e := StepAudio(code, s, event).0, StepAudio(code, s, event).1;
    RunKeeps(code, maxInFlight, maxCompleted, prior);
    StepKeeps(code, s, event);
    HistoryExtends(s, s');
    assert ReplayAudio(code, maxInFlight, maxCompleted, events) == (s', log + [e]);
    if n < |log| {
      EmissionsSeparated(code, maxInFlight, maxCompleted, prior, m, i, n, j);
    } else {
      SeparatedNow(code, s, log, event, m, i, j);
    }
  }

  lemma HistoryExtends(s: Flow, s': Flow)
    requires MarksKept(s, s')
    ensures s.completed.history <= s'.completed.history
  {
  }

  /** No call emits one source index twice. */
  lemma {:induction false} EmissionsDistinct(code: Code, maxInFlight: nat, maxCompleted: nat, events: seq<Event>, m: nat)
    requires m < |ReplayAudio(code, maxInFlight, maxCompleted, events).1|
    ensures DistinctIndices(ReplayAudio(code, maxInFlight, maxCompleted, events).1[m].shards)
    decreases |events|
  {
    hide StepAudio, DistinctIndices;
    var prior, event := events[..|events| - 1], events[|events| - 1];
    RunKeeps(code, maxInFlight, maxCompleted, prior);
    StepKeeps(code, ReplayAudio(code, maxInFlight, maxCompleted, prior).0, event);
    if m < |events| - 1 {
      EmissionsDistinct(code, maxInFlight, maxCompleted, prior, m);
    }
  }
}
