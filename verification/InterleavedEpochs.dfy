/**
 An epoch among others: what datagrams of other epochs, reads and expiries in between leave of it, as
 long as they come from fewer other blocks than may be in flight.
 */
module InterleavedEpochs {
  import opened Assembly
  import opened AudioDecoderRuns
  import opened AudioDecoding
  import opened ByteCodec
  import opened ClosedWindows
  import opened Collections
  import opened Datagram
  import opened EndToEnd
  import opened EpochDelivery
  import opened EpochEncoding
  import opened EpochSharding
  import opened ExactAssembly
  import opened FecDecoding
  import opened GenuineAudio
  import opened MachineInts
  import opened Playout
  import opened RaptorQ
  import opened Session
  import opened SessionRuns
  import opened ShardHeaders
  import opened Wrappers

  // ----- queues

  /** Whatever entered the queue after `b` is one of `others`. */
  ghost predicate Behind(order: seq<u32>, b: u32, others: set<u32>) {
    forall m, n | 0 <= m < n < |order| && order[m] == b :: order[n] in others
  }

  lemma BehindTail(order: seq<u32>, b: u32, others: set<u32>)
    requires Behind(order, b, others) && order != []
    ensures Behind(order[1..], b, others)
  {
  }

  lemma BehindAppend(order: seq<u32>, b: u32, others: set<u32>, x: u32)
    requires Behind(order, b, others) && (x in others || b !in order)
    ensures Behind(order + [x], b, others)
  {
  }

  lemma {:induction false} BehindWithout(order: seq<u32>, b: u32, others: set<u32>, x: u32)
    requires Behind(order, b, others)
    ensures Behind(Without(order, x), b, others)
  {
    if order != [] {
      BehindTail(order, b, others);
      BehindWithout(order[1..], b, others, x);
      WithoutMembers(order[1..], x);
      var rest := Without(order[1..], x);
      if order[0] == b {
        forall y | y in rest ensures y in others {
          assert y in order[1..];
        }
      }
    }
  }

  /** While `b` is the oldest, the queue holds nothing but `b` and others. */
  lemma OldestBounds(order: seq<u32>, members: set<u32>, b: u32, others: set<u32>)
    requires Enumerates(order, members) && Behind(order, b, others) && order != [] && order[0] == b
    ensures members - {b} <= others && |order| <= 1 + |others|
  {
    EnumerationSize(order, members);
    forall x | x in members - {b} ensures x in others {
      assert x in order;
    }
    Smaller(members - {b}, others);
  }

  // ----- the decoder

  /** Every one of these blocks can close without pushing `b` out of the window. */
  ghost predicate Near(blocks: set<u32>, b: u32) {
    forall x | x in blocks :: WithinWindow(b, x)
  }

  /** Nothing the decoder knows of block `b` was lost. */
  ghost predicate SameFlow(s: Flow, s': Flow, b: u32) {
    && (b in s'.completed.members ==> b in s.completed.members)
    && (b in s'.fec.completed ==> b in s.fec.completed)
    && DeliveredOf(s', b) == DeliveredOf(s, b)
  }

  /** The queue of open blocks has room for all others behind `b`. */
  ghost predicate FlowRoom(s: Flow, b: u32, others: set<u32>) {
    Enumerates(s.inFlightOrder, s.inFlight) && Behind(s.inFlightOrder, b, others) && |others| < s.maxInFlight
  }

  /** Evicting older blocks leaves block `b` alone. */
  lemma {:induction false} EvictSpares(s: Flow, b: u32, others: set<u32>)
    requires FlowRoom(s, b, others)
    ensures var s' := EvictOldest(s);
            && FlowRoom(s', b, others) && SameFlow(s, s', b) && s'.inFlight <= s.inFlight
            && (Near(s.inFlight, b) ==> HeldIds(s'.fec, b) == HeldIds(s.fec, b))
    decreases |s.inFlightOrder|
  {
    hide Remembered, Closed, HeldIds, Behind, Enumerates, WithinWindow;
    if |s.inFlight| > s.maxInFlight && s.inFlightOrder != [] {
      var oldest := s.inFlightOrder[0];
      EnumerationSize(s.inFlightOrder, s.inFlight);
      if oldest == b {
        OldestBounds(s.inFlightOrder, s.inFlight, b, others);
      }
      EnumeratesTail(s.inFlightOrder, s.inFlight);
      BehindTail(s.inFlightOrder, b, others);
      RememberedOnly(s.completed, oldest, s.maxCompleted);
      ClosedCloses(s.fec, oldest);
      EvictSpares(
        RememberClosed(s.(inFlightOrder := s.inFlightOrder[1..], inFlight := s.inFlight - {oldest},
                          fec := Closed(s.fec, oldest), delivered := s.delivered - {oldest}), oldest), b, others);
    }
  }

  lemma ObserveSpares(s: Flow, x: u32, b: u32, others: set<u32>)
    requires FlowRoom(s, b, others) && (x == b || x in others)
    ensures var s' := ObserveInFlight(s, x);
            && FlowRoom(s', b, others) && SameFlow(s, s', b) && s'.inFlight <= s.inFlight + {x}
            && (Near(s.inFlight + {x}, b) ==> HeldIds(s'.fec, b) == HeldIds(s.fec, b))
  {
    hide EvictOldest, HeldIds, Behind;
    if x !in s.inFlight {
      EnumeratesAppend(s.inFlightOrder, s.inFlight, x);
      BehindAppend(s.inFlightOrder, b, others, x);
      EvictSpares(s.(inFlight := s.inFlight + {x}, inFlightOrder := s.inFlightOrder + [x]), b, others);
    }
  }

  lemma DeliveredSpares(s: Flow, header: Header, candidate: Option<Shard>, recovered: Option<Bytes>, b: u32, others: set<u32>)
    requires FlowRoom(s, b, others)
    ensures var s' := Delivered(s, header, candidate, recovered).0;
            && FlowRoom(s', b, others) && s'.fec == s.fec && s'.inFlight <= s.inFlight
            && (header.blockId != b ==> SameFlow(s, s', b))
  {
    hide Remembered, FillHoles, StableSort, Behind;
    EnumeratesWithout(s.inFlightOrder, s.inFlight, header.blockId);
    BehindWithout(s.inFlightOrder, b, others, header.blockId);
    RememberedOnly(s.completed, header.blockId, s.maxCompleted);
  }

  /** What a datagram of block `x` leaves of block `b`, and what it adds if it is its own. */
  ghost predicate FlowSpares(s: Flow, s': Flow, x: u32, i: nat, b: u32, others: set<u32>) {
    && FlowRoom(s', b, others) && s'.inFlight <= s.inFlight + {x}
    && (x != b ==> SameFlow(s, s', b))
    && (Near(s.inFlight + {x}, b) && b !in s.fec.completed && b !in s'.completed.members ==>
          b !in s'.fec.completed && HeldIds(s'.fec, b) == HeldIds(s.fec, b) + (if x == b then {i} else {}))
  }

  /** The same, of the block decoder alone. */
  ghost predicate FecSpares(s: Decoder, s': Decoder, closed: bool, x: u32, i: nat, b: u32) {
    && (x != b && b in s'.completed ==> b in s.completed)
    && (b !in s.completed && WithinWindow(b, x) && !(x == b && closed) ==>
          b !in s'.completed && HeldIds(s', b) == HeldIds(s, b) + (if x == b then {i} else {}))
  }

  lemma StepSpares(code: Code, source: Source, s: Decoder, s': Decoder, r: PushResult, x: u32, i: nat, b: u32)
    requires source.Valid() && Steps(code, source, s, s', r, x, i)
    ensures FecSpares(s, s', r != Success(None), x, i, b)
  {
    hide Decodes, Source.Valid, WithinWindow;
    if x in s.completed {
      assert HeldIds(s', b) == HeldIds(s, b);
    }
  }

  lemma PushSpares(code: Code, sent: Sent, s: Flow, x: u32, i: nat, b: u32, others: set<u32>)
    requires code.Lawful() && Sends(sent) && x in sent && i < sent[x].Datagrams() && GenuineFlow(code, sent, s)
    requires FlowRoom(s, b, others) && (x == b || x in others)
    ensures FlowSpares(s, PushedAudio(code, s, SentDatagram(code, sent[x], i)).0, x, i, b, others)
  {
    hide Parse, SentDatagram, Admitted, FecDecoding.Pushed, Candidate, GenuineState, FlowRoom, Consistent, GenuineArrival,
         Decodes, HeldIds, SentBlock.Datagrams, ObjectOf, Source.Valid, Steps, PushedAudio, Progress, Recovers;
    var datagram := SentDatagram(code, sent[x], i);
    SentDatagramParses(code, sent[x], i);
    PushParsed(code, s, datagram);
    if x !in s.completed.members {
      CandidateGenuine(code, sent[x], i);
      FecGenuine(code, sent, s.fec, x, datagram);
      var pushed := FecDecoding.Pushed(code, s.fec, datagram);
      StepSpares(code, sent[x].Source(), s.fec, pushed.0, pushed.1, x, i, b);
      GenuinePush(code, sent, s, x, i);
      StepRecovers(code, sent[x], s, pushed.0, pushed.1, i);
      AdmittedSpares(code, s, datagram, Parse(datagram).value, i, b, others);
    }
  }

  lemma StepRecovers(code: Code, block: SentBlock, s: Flow, fec': Decoder, r: PushResult, i: nat)
    requires block.Valid() && block.Source().Valid() && Steps(code, block.Source(), s.fec, fec', r, block.blockId, i)
    ensures r != Success(None) ==> Recovers(code, block, s, i)
  {
    hide Decodes, SentBlock.Source, Source.Valid, TakesIn, Closes, HeldIds;
  }

  lemma AdmittedSpares(code: Code, s: Flow, datagram: Bytes, arrival: Arrival, i: nat, b: u32, others: set<u32>)
    requires var x := arrival.header.blockId;
             var (fec', r) := FecDecoding.Pushed(code, s.fec, datagram);
             && FlowRoom(s, b, others) && (x == b || x in others) && Candidate(arrival).Success?
             && r.Success? && FecSpares(s.fec, fec', r != Success(None), x, i, b)
    requires arrival.header.blockId == b && FecDecoding.Pushed(code, s.fec, datagram).1.value.Some? ==>
               b in Admitted(code, s, datagram, arrival).0.completed.members
    ensures FlowSpares(s, Admitted(code, s, datagram, arrival).0, arrival.header.blockId, i, b, others)
  {
    hide Delivered, ObserveInFlight, FecDecoding.Pushed, Candidate, FlowRoom, HeldIds, WithinWindow;
    var x := arrival.header.blockId;
    var pushed := FecDecoding.Pushed(code, s.fec, datagram);
    var candidate := Candidate(arrival).value;
    var t := s.(fec := pushed.0);
    RoomKept(s, t, b, others);
    if pushed.1.value.None? {
      ObserveSpares(t, x, b, others);
      DeliveredSpares(ObserveInFlight(t, x), arrival.header, candidate, None, b, others);
    } else {
      DeliveredSpares(t, arrival.header, candidate, pushed.1.value, b, others);
    }
  }

  /**
   Why the window matters: when the first datagram of a block evicts a block more than the window ahead
   of it, the symbol it brought is forgotten at once.
   */
  lemma FirstSymbolForgotten(code: Code, sent: Sent, s: Flow, b: u32, i: nat)
    requires code.Lawful() && Sends(sent) && b in sent && i < sent[b].Datagrams() && GenuineFlow(code, sent, s)
    requires b !in s.completed.members && b !in s.fec.completed && b !in s.inFlight && !Recovers(code, sent[b], s, i)
    requires |s.inFlight| == s.maxInFlight && s.inFlightOrder != [] && !WithinWindow(b, s.inFlightOrder[0])
    ensures HeldIds(PushedAudio(code, s, SentDatagram(code, sent[b], i)).0.fec, b) == {}
  {
    hide Parse, SentDatagram, FecDecoding.Pushed, Candidate, GenuineState, GenuineArrival, HeldIds, SentBlock.Datagrams,
         ObjectOf, Source.Valid, WithinWindow, Delivered, Ok, Progress, CanDecode, Decodes, EvictOldest, PushedAudio, CloseBlock;
    var datagram := SentDatagram(code, sent[b], i);
    SentDatagramParses(code, sent[b], i);
    PushParsed(code, s, datagram);
    CandidateGenuine(code, sent[b], i);
    FecGenuine(code, sent, s.fec, b, datagram);
    var arrival := Parse(datagram).value;
    var t := s.(fec := FecDecoding.Pushed(code, s.fec, datagram).0);
    StepRecovers(code, sent[b], s, t.fec, FecDecoding.Pushed(code, s.fec, datagram).1, i);
    var u := t.(inFlight := t.inFlight + {b}, inFlightOrder := t.inFlightOrder + [b]);
    EnumeratesAppend(t.inFlightOrder, t.inFlight, b);
    EvictIsOneRound(u);
    ClosedCloses(t.fec, s.inFlightOrder[0]);
    DirectKeepsFec(EvictOldest(u), arrival.header, Candidate(arrival).value);
  }

  lemma DirectKeepsFec(s: Flow, header: Header, candidate: Option<Shard>)
    ensures Delivered(s, header, candidate, None).0.fec == s.fec
  {
  }

  lemma RoomKept(s: Flow, t: Flow, b: u32, others: set<u32>)
    requires FlowRoom(s, b, others) && t == s.(fec := t.fec)
    ensures FlowRoom(t, b, others)
  {
  }

  // ----- the receiver

  /** The assembly of block `b` is as it was, and its shards are wanted as before. */
  ghost predicate SameEntry(s: Receiver, s': Receiver, b: u32) {
    && (b in s'.inflight <==> b in s.inflight) && (b in s.inflight ==> s'.inflight[b] == s.inflight[b])
    && (b in s'.ignored.members ==> b in s.ignored.members)
    && s'.playout.lastPlayed == s.playout.lastPlayed
  }

  ghost predicate TableRoom(s: Receiver, b: u32, others: set<u32>) {
    Enumerates(s.order, s.inflight.Keys) && Behind(s.order, b, others) && |others| < s.maxInflight
  }

  /** Making room for a new block leaves the assembly of block `b` alone. */
  lemma {:induction false} SlotSpares(s: Receiver, x: u32, b: u32, others: set<u32>)
    requires TableRoom(s, b, others) && x !in s.inflight && (x == b || x in others)
    ensures var s' := EnsureSlot(s);
            TableRoom(s', b, others) && SameEntry(s, s', b) && x !in s'.inflight && s'.flow == s.flow
    decreases |s.order|
  {
    hide Remembered, Behind;
    if |s.inflight| >= s.maxInflight && s.order != [] {
      var oldest := s.order[0];
      EnumerationSize(s.order, s.inflight.Keys);
      if oldest == b {
        BehindWithoutNew(s.order, b, others, x);
        OldestBounds(s.order, s.inflight.Keys, b, others - {x});
        Removed(others, x);
      }
      EnumeratesTail(s.order, s.inflight.Keys);
      BehindTail(s.order, b, others);
      RememberedOnly(s.ignored, oldest, s.maxIgnored);
      SlotRound(s);
      var popped := RememberIgnored(CountIncomplete(s.(order := s.order[1..], inflight := s.inflight - {oldest})), oldest);
      assert popped.inflight.Keys == s.inflight.Keys - {oldest};
      SlotSpares(popped, x, b, others);
    } else {
      SlotDone(s);
    }
  }

  lemma BehindWithoutNew(order: seq<u32>, b: u32, others: set<u32>, x: u32)
    requires Behind(order, b, others) && x !in order
    ensures Behind(order, b, others - {x})
  {
  }

  lemma Removed(xs: set<u32>, x: u32)
    ensures |xs - {x}| == |xs| - (if x in xs then 1 else 0)
  {
    if x !in xs {
      assert xs - {x} == xs;
    }
  }

  /**
   Why the limit matters: a new block that meets a full table drops the oldest open epoch, and a shard of
   it that comes next is ignored.
   */
  lemma OldestEvicted(s: Receiver, shard: Shard)
    requires Sound(s) && Shapes(s) && ShardInRange(shard) && |s.inflight| == s.maxInflight
    requires shard.blockId !in s.inflight && shard.blockId !in s.ignored.members
    requires !IsLate(s.playout, shard.header.ptsSamples)
    ensures s.order != []
    ensures var (s', b) := (TakeShard(s, shard).0, s.order[0]);
            && Shapes(s') && b !in s'.inflight && b in s'.ignored.members
            && forall late: Shard | late.blockId == b && ShardInRange(late) ::
                 TakeShard(s', late) == (CountShard(s', late), Success(ReceiveOutcome([], None)))
  {
    hide Assemble, EpochShape, Pending, BufferOk, Consistent, Balanced, Counted, Remembered;
    var counted, b := CountShard(s, shard), s.order[0];
    EnumerationSize(s.order, s.inflight.Keys);
    EnumeratesTail(s.order, s.inflight.Keys);
    CountShardOk(s, shard);
    PopIsDrop(counted);
    DropOk(counted, b);
    RememberedOk(s.ignored, b, s.maxIgnored);
    SlotRound(counted);
    SlotDone(CountIncomplete(DropInflight(counted, b)));
    TakeShardKeepsShapes(s, shard);
    NewEpochShape(shard.blockId, shard.header);
    SlotKeepsShapes(counted);
    AssembleKeepsIgnored(OpenAssembly(EnsureSlot(counted), shard), shard);
  }

  lemma AssembleKeepsIgnored(s: Receiver, shard: Shard)
    requires shard.blockId in s.inflight && EpochShape(s.inflight[shard.blockId]) && ShardInRange(shard)
    ensures var s' := Assemble(s, shard).0;
            s'.ignored == s.ignored && s'.inflight.Keys <= s.inflight.Keys
  {
    hide EpochPush, BufferInsert, FinishedEpoch, EpochShape, AllFilled;
  }

  lemma AssembleSpares(s: Receiver, shard: Shard, b: u32, others: set<u32>)
    requires shard.blockId in s.inflight && EpochShape(s.inflight[shard.blockId]) && ShardInRange(shard)
    requires TableRoom(s, b, others)
    ensures var s' := Assemble(s, shard).0;
            TableRoom(s', b, others) && (shard.blockId != b ==> SameEntry(s, s', b)) && s'.flow == s.flow
  {
    hide EpochPush, WithoutEarliest, FinishedEpoch, Behind, Enumerates, Without, EpochShape, AllFilled;
    EnumeratesWithout(s.order, s.inflight.Keys, shard.blockId);
    BehindWithout(s.order, b, others, shard.blockId);
    var s' := Assemble(s, shard).0;
    assert s'.inflight.Keys == s.inflight.Keys || s'.inflight.Keys == s.inflight.Keys - {shard.blockId};
  }

  lemma TakeShardSpares(s: Receiver, shard: Shard, b: u32, others: set<u32>)
    requires Shapes(s) && ShardInRange(shard) && TableRoom(s, b, others) && (shard.blockId == b || shard.blockId in others)
    ensures var s' := TakeShard(s, shard).0;
            TableRoom(s', b, others) && (shard.blockId != b ==> SameEntry(s, s', b)) && s'.flow == s.flow
  {
    hide Assemble, EnsureSlot, EpochShape, Behind;
    var counted := CountShard(s, shard);
    SlotKeepsShapes(counted);
    NewEpochShape(shard.blockId, shard.header);
    if !(shard.blockId in s.ignored.members || IsLate(s.playout, shard.header.ptsSamples)) {
      if shard.blockId !in s.inflight {
        SlotSpares(counted, shard.blockId, b, others);
      }
      var ready := if shard.blockId in s.inflight then counted else EnsureSlot(counted);
      OpenSpares(ready, shard, b, others);
      AssembleSpares(OpenAssembly(ready, shard), shard, b, others);
    }
  }

  lemma OpenSpares(s: Receiver, shard: Shard, b: u32, others: set<u32>)
    requires TableRoom(s, b, others) && (shard.blockId == b || shard.blockId in others)
    ensures var s' := OpenAssembly(s, shard);
            TableRoom(s', b, others) && (shard.blockId != b ==> SameEntry(s, s', b)) && s'.flow == s.flow
  {
    hide NewEpoch;
    if shard.blockId !in s.inflight {
      EnumeratesAppend(s.order, s.inflight.Keys, shard.blockId);
      BehindAppend(s.order, b, others, shard.blockId);
      assert OpenAssembly(s, shard).inflight.Keys == s.inflight.Keys + {shard.blockId};
    }
  }

  lemma {:induction false} TakeShardsSpare(s: Receiver, shards: seq<Shard>, sofar: ReceiveOutcome, x: u32, b: u32,
                                           others: set<u32>)
    requires Shapes(s) && AllInRange(shards) && TableRoom(s, b, others) && (x == b || x in others)
    requires forall shard | shard in shards :: shard.blockId == x
    ensures var s' := TakeShards(s, shards, sofar).0;
            TableRoom(s', b, others) && (x != b ==> SameEntry(s, s', b)) && s'.flow == s.flow
    decreases |shards|
  {
    hide TakeShard, Shapes, TableRoom;
    if shards != [] {
      TakeShardKeepsShapes(s, shards[0]);
      TakeShardSpares(s, shards[0], b, others);
      var one := TakeShard(s, shards[0]);
      if one.1.Success? {
        TakeFirst(s, shards, sofar);
        TakeShardsSpare(one.0, shards[1..], Outcomes(sofar, one.1.value), x, b, others);
      }
    }
  }

  /** Room for all others, in the decoder and in the table. */
  ghost predicate Room(s: Receiver, b: u32, others: set<u32>) {
    FlowRoom(s.flow, b, others) && TableRoom(s, b, others)
  }

  /** One datagram of block `x`. */
  lemma DatagramSpares(code: Code, sent: Sent, s: Receiver, x: u32, i: nat, b: u32, others: set<u32>)
    requires code.Lawful() && Sends(sent) && Sound(s) && ExactReceiver(code, sent, s) && x in sent && i < sent[x].Datagrams()
    requires Room(s, b, others) && (x == b || x in others)
    ensures var s' := After(code, s, Datagram(SentDatagram(code, sent[x], i)));
            && Room(s', b, others) && (x != b ==> SameEntry(s, s', b))
            && FlowSpares(s.flow, s'.flow, x, i, b, others)
  {
    hide PushedAudio, SentDatagram, TakeShards, GenuineFlow, Sound, Shapes, Cut.Shards, ShardAt, ExactTable, ExactBuffer,
         SentBlock.Datagrams, AllInRange, TableRoom, FlowRoom, TableOk, FlowSpares;
    var datagram := SentDatagram(code, sent[x], i);
    SoundTable(s);
    SoundHasShapes(s);
    PushOk(code, s, datagram);
    OutputGenuine(code, sent, s.flow, x, i);
    PushSpares(code, sent, s.flow, x, i, b, others);
    var (flow', r) := PushedAudio(code, s.flow, datagram);
    ShapesKept(s, flow');
    forall shard | shard in r.value ensures shard.blockId == x {
      assert GenuineShard(sent[x].cut, x, shard);
      ShardAtIndex(sent[x].cut, x, shard.header.sourceIndex, shard.recovery);
    }
    var t := CountDatagram(s).(flow := flow');
    TableKept(s, t, b, others);
    TakeShardsSpare(t, r.value, ReceiveOutcome([], None), x, b, others);
    SparesRoom(s.flow, flow', x, i, b, others);
  }

  lemma TableKept(s: Receiver, t: Receiver, b: u32, others: set<u32>)
    requires TableRoom(s, b, others) && t == CountDatagram(s).(flow := t.flow)
    ensures TableRoom(t, b, others)
  {
  }

  lemma SparesRoom(s: Flow, s': Flow, x: u32, i: nat, b: u32, others: set<u32>)
    requires FlowSpares(s, s', x, i, b, others)
    ensures FlowRoom(s', b, others)
  {
    hide FlowRoom;
  }

  // ----- reads and expiries

  lemma DropSpares(s: Receiver, x: u32, b: u32, others: set<u32>)
    requires TableRoom(s, b, others) && x != b
    ensures var s' := DropInflight(s, x);
            TableRoom(s', b, others) && SameEntry(s, s', b) && s'.flow == s.flow && s'.playout == s.playout
  {
    hide Remembered, Behind;
    EnumeratesWithout(s.order, s.inflight.Keys, x);
    BehindWithout(s.order, b, others, x);
    RememberedOnly(s.ignored, x, s.maxIgnored);
    assert DropInflight(s, x).inflight.Keys == s.inflight.Keys - {x};
  }

  lemma {:induction false} AbandonSpares(s: Receiver, blocks: seq<u32>, b: u32, others: set<u32>)
    requires TableRoom(s, b, others) && b !in blocks
    ensures var s' := Abandon(s, blocks);
            TableRoom(s', b, others) && SameEntry(s, s', b) && s'.flow == s.flow && s'.playout == s.playout
    decreases |blocks|
  {
    hide DropInflight;
    if blocks != [] {
      DropSpares(s, blocks[0], b, others);
      AbandonSpares(CountIncomplete(DropInflight(s, blocks[0])), blocks[1..], b, others);
    }
  }

  lemma {:induction false} DropAllSpares(s: Receiver, blocks: seq<u32>, b: u32, others: set<u32>)
    requires TableRoom(s, b, others) && b !in blocks
    ensures var s' := DropAll(s, blocks);
            TableRoom(s', b, others) && SameEntry(s, s', b) && s'.flow == s.flow && s'.playout == s.playout
    decreases |blocks|
  {
    hide DropInflight;
    if blocks != [] {
      DropSpares(s, blocks[0], b, others);
      DropAllSpares(DropInflight(s, blocks[0]), blocks[1..], b, others);
    }
  }

  // ----- events

  /** Datagram `index` of a block arrives, or the caller reads or expires. */
  datatype Event = Arrives(block: u32, index: nat) | Reads(pts: u64, walk: seq<u32>) | Expires(pts: u64, walk: seq<u32>)

  /** Datagrams of `b` and of `others`, and reads and expiries that leave timestamp `pts` to come. */
  ghost predicate Allowed(sent: Sent, b: u32, others: set<u32>, pts: u64, e: Event)
    requires Sends(sent)
  {
    match e
    case Arrives(x, i) => x in sent && (x == b || x in others) && i < sent[x].Datagrams()
    case Reads(at, _) => at < pts
    case Expires(at, _) => at <= pts
  }

  ghost predicate AllAllowed(sent: Sent, b: u32, others: set<u32>, pts: u64, events: seq<Event>)
    requires Sends(sent)
  {
    forall k | 0 <= k < |events| :: Allowed(sent, b, others, pts, events[k])
  }

  ghost function CallOf(code: Code, sent: Sent, e: Event): Call
    requires Sends(sent)
  {
    match e
    case Arrives(x, i) => Datagram(if x in sent && i < sent[x].Datagrams() then SentDatagram(code, sent[x], i) else [])
    case Reads(at, walk) => TakePlayout(at, walk)
    case Expires(at, walk) => ExpireBefore(at, walk)
  }

  ghost function Next(code: Code, sent: Sent, s: Receiver, e: Event): (s': Receiver)
    requires Sends(sent) && Sound(s) && Walks(s, CallOf(code, sent, e))
    ensures Sound(s')
  {
    CallSound(code, s, CallOf(code, sent, e));
    After(code, s, CallOf(code, sent, e))
  }

  /** Every walk fits the state it meets. */
  ghost predicate Runs(code: Code, sent: Sent, s: Receiver, events: seq<Event>)
    requires Sends(sent) && Sound(s)
    decreases |events|
  {
    events == [] || (Walks(s, CallOf(code, sent, events[0])) && Runs(code, sent, Next(code, sent, s, events[0]), events[1..]))
  }

  /** Some datagram of block `b` among these completes its epoch, exactly as it was sent. */
  ghost predicate Emerges(code: Code, sent: Sent, s: Receiver, b: u32, events: seq<Event>)
    requires Sends(sent) && Sound(s) && b in sent && Runs(code, sent, s, events)
    decreases |events|
  {
    events != []
    && ((events[0].Arrives? && events[0].block == b && Delivers(code, sent, s, b, CallOf(code, sent, events[0]).bytes))
        || Emerges(code, sent, Next(code, sent, s, events[0]), b, events[1..]))
  }

  /** Indices of the datagrams of block `b`. */
  function IndicesOf(b: u32, events: seq<Event>): set<nat> {
    if events == [] then {} else Own(b, events[0]) + IndicesOf(b, events[1..])
  }

  function Own(b: u32, e: Event): set<nat> {
    if e.Arrives? && e.block == b then {e.index} else {}
  }

  // ----- one event

  /** What holds of block `b` while it is collected among `others`. */
  ghost predicate Amid(code: Code, sent: Sent, s: Receiver, b: u32, others: set<u32>, had: set<u16>)
    requires Sends(sent)
  {
    Collecting(code, sent, s, b, had) && Room(s, b, others) && b !in others
  }

  /** The block decoder holds exactly these symbols of block `b`, and no window comes between. */
  ghost predicate Tracking(s: Receiver, b: u32, others: set<u32>, arrived: set<nat>) {
    && b !in s.flow.fec.completed && HeldIds(s.flow.fec, b) == arrived
    && Near(s.flow.inFlight, b) && Near(others, b)
  }

  lemma EntryCollects(code: Code, sent: Sent, s: Receiver, s': Receiver, b: u32, had: set<u16>)
    requires Sends(sent) && Collecting(code, sent, s, b, had) && ExactReceiver(code, sent, s')
    requires b in s'.inflight <==> b in s.inflight
    requires b in s.inflight ==> s'.inflight[b] == s.inflight[b]
    requires b in s'.ignored.members ==> b in s.ignored.members
    requires !IsLate(s'.playout, sent[b].cut.epoch.ptsSamples)
    requires b !in s'.flow.completed.members && DeliveredOf(s'.flow, b) == DeliveredOf(s.flow, b)
    ensures Collecting(code, sent, s', b, had)
  {
    hide ExactReceiver, EpochHas, SlotAt, Cut.Shards;
    forall x: u16 | x < sent[b].cut.Shards() ensures Has(s', sent[b].cut, b, x) <==> x in had {
      assert Has(s, sent[b].cut, b, x) <==> x in had;
    }
  }

  lemma OthersKeep(code: Code, sent: Sent, s: Receiver, b: u32, others: set<u32>, had: set<u16>, x: u32, i: nat)
    requires code.Lawful() && Sends(sent) && Sound(s) && Amid(code, sent, s, b, others, had)
    requires x in sent && x in others && i < sent[x].Datagrams()
    ensures var s' := After(code, s, Datagram(SentDatagram(code, sent[x], i)));
            && Amid(code, sent, s', b, others, had)
            && forall arrived | Tracking(s, b, others, arrived) :: Tracking(s', b, others, arrived)
  {
    hide PushReceiver, SentDatagram, Sound, ExactReceiver, ExactCall, After, HasExactly, Room, SentBlock.Datagrams, HeldIds,
         WithinWindow, FlowRoom;
    CallExact(code, sent, s, Datagram(SentDatagram(code, sent[x], i)));
    DatagramSpares(code, sent, s, x, i, b, others);
    EntryCollects(code, sent, s, After(code, s, Datagram(SentDatagram(code, sent[x], i))), b, had);
  }

  /** A datagram of the block itself. */
  lemma OwnKeeps(code: Code, sent: Sent, s: Receiver, b: u32, others: set<u32>, had: set<u16>, i: nat)
    requires code.Lawful() && Sends(sent) && Sound(s) && Amid(code, sent, s, b, others, had) && i < sent[b].Datagrams()
    requires !Delivers(code, sent, s, b, SentDatagram(code, sent[b], i))
    ensures var s' := After(code, s, Datagram(SentDatagram(code, sent[b], i)));
            && Amid(code, sent, s', b, others, had + OwnIndex(sent[b], i))
            && forall arrived | Tracking(s, b, others, arrived) :: Tracking(s', b, others, arrived + {i})
  {
    hide PushReceiver, SentDatagram, Sound, ExactReceiver, After, HasExactly, Room, SentBlock.Datagrams, HeldIds,
         WithinWindow, FlowRoom, Delivers, OwnIndex, Recovers, Full, SameEntry;
    PushCollects(code, sent, s, b, i, had);
    DatagramSpares(code, sent, s, b, i, b, others);
    assert WithinWindow(b, b) by {
      SelfWithin(b);
    }
  }

  /** The timestamp an open assembly shows is its epoch's. */
  lemma OwnTimestamp(code: Code, sent: Sent, s: Receiver, b: u32)
    requires Sends(sent) && ExactReceiver(code, sent, s) && b in s.inflight
    ensures b in sent && s.inflight[b].header.ptsSamples == sent[b].cut.epoch.ptsSamples
  {
    hide GenuineFlow, ExactBuffer, Sound, IsGroup, ExactGroup, Cut.Fragments, Cut.Shards;
    assert ExactEpoch(sent[b].cut, b, s.inflight[b]);
  }

  lemma ReadSpares(s: Receiver, b: u32, others: set<u32>, at: u64, walk: seq<u32>)
    requires TableRoom(s, b, others) && b !in walk
    ensures var s' := TakeReceiver(s, at, walk).0;
            && TableRoom(s', b, others) && s'.flow == s.flow && s'.playout.lastPlayed == Some(at)
            && (b in s'.inflight <==> b in s.inflight) && (b in s.inflight ==> s'.inflight[b] == s.inflight[b])
            && (b in s'.ignored.members ==> b in s.ignored.members)
  {
    hide Abandon, BufferTake, TableRoom;
    AbandonSpares(s, walk, b, others);
    var t := Abandon(s, walk);
    PlayedAt(t.playout, at);
    TableAt(t, TakeReceiver(s, at, walk).0, b, others);
  }

  lemma ReadKeeps(code: Code, sent: Sent, s: Receiver, b: u32, others: set<u32>, had: set<u16>, at: u64, walk: seq<u32>)
    requires Sends(sent) && Sound(s) && Amid(code, sent, s, b, others, had)
    requires Walks(s, TakePlayout(at, walk)) && at < sent[b].cut.epoch.ptsSamples
    ensures var s' := After(code, s, TakePlayout(at, walk));
            && Amid(code, sent, s', b, others, had)
            && forall arrived | Tracking(s, b, others, arrived) :: Tracking(s', b, others, arrived)
  {
    hide Sound, ExactReceiver, HasExactly, HeldIds, WithinWindow, FlowRoom, TakeReceiver, TableRoom, WasSent;
    if b in s.inflight {
      OwnTimestamp(code, sent, s, b);
    }
    TakeExact(code, sent, s, at, walk);
    ReadSpares(s, b, others, at, walk);
    EntryCollects(code, sent, s, TakeReceiver(s, at, walk).0, b, had);
  }

  lemma PlayedAt(buffer: Buffer, pts: u64)
    ensures BufferTake(buffer, pts).0.lastPlayed == Some(pts)
  {
  }

  lemma TableAt(s: Receiver, s': Receiver, b: u32, others: set<u32>)
    requires TableRoom(s, b, others) && s'.order == s.order && s'.inflight == s.inflight && s'.maxInflight == s.maxInflight
    ensures TableRoom(s', b, others)
  {
  }

  lemma ExpiryKeeps(code: Code, sent: Sent, s: Receiver, b: u32, others: set<u32>, had: set<u16>, at: u64, walk: seq<u32>)
    requires Sends(sent) && Sound(s) && Amid(code, sent, s, b, others, had)
    requires Walks(s, ExpireBefore(at, walk)) && at <= sent[b].cut.epoch.ptsSamples
    ensures var s' := After(code, s, ExpireBefore(at, walk));
            && Amid(code, sent, s', b, others, had)
            && forall arrived | Tracking(s, b, others, arrived) :: Tracking(s', b, others, arrived)
  {
    hide Sound, ExactReceiver, HasExactly, HeldIds, WithinWindow, FlowRoom, TableRoom, WasSent, DropAll;
    if b in s.inflight {
      OwnTimestamp(code, sent, s, b);
    }
    ExpireExact(code, sent, s, at, walk);
    var t := s.(playout := BufferExpire(s.playout, at).0);
    TableAt(s, t, b, others);
    DropAllSpares(t, walk, b, others);
    var s' := ExpireReceiver(s, at, walk).0;
    TableAt(DropAll(t, walk), s', b, others);
    EntryCollects(code, sent, s, s', b, had);
  }

  /** Shards handed over once the event has happened, if the epoch is not complete. */
  ghost function HadAfter(block: SentBlock, e: Event, had: set<u16>): set<u16>
    requires block.Valid()
  {
    if e.Arrives? && e.block == block.blockId then had + OwnIndex(block, e.index) else had
  }

  ghost predicate DeliversOwn(code: Code, sent: Sent, s: Receiver, b: u32, e: Event)
    requires Sends(sent) && Sound(s) && b in sent
  {
    e.Arrives? && e.block == b && Delivers(code, sent, s, b, CallOf(code, sent, e).bytes)
  }

  lemma NextKeeps(code: Code, sent: Sent, s: Receiver, b: u32, others: set<u32>, had: set<u16>, e: Event)
    requires code.Lawful() && Sends(sent) && Sound(s) && b in sent && Amid(code, sent, s, b, others, had)
    requires Allowed(sent, b, others, sent[b].cut.epoch.ptsSamples, e) && Walks(s, CallOf(code, sent, e))
    requires !DeliversOwn(code, sent, s, b, e)
    ensures var s' := Next(code, sent, s, e);
            && Amid(code, sent, s', b, others, HadAfter(sent[b], e, had))
            && forall arrived | Tracking(s, b, others, arrived) :: Tracking(s', b, others, arrived + Own(b, e))
  {
    hide Sound, Amid, Tracking, Delivers, After, SentDatagram, OwnIndex, Walks, Cut.Shards;
    assert sent[b].blockId == b;
    assert forall arrived: set<nat> :: arrived + {} == arrived;
    match e
    case Arrives(x, i) =>
      if x == b {
        OwnKeeps(code, sent, s, b, others, had, i);
      } else {
        OthersKeep(code, sent, s, b, others, had, x, i);
      }
    case Reads(at, walk) => ReadKeeps(code, sent, s, b, others, had, at, walk);
    case Expires(at, walk) => ExpiryKeeps(code, sent, s, b, others, had, at, walk);
  }
}
