/**
 Liveness: which epochs come out. An epoch none of whose datagrams arrived yet completes with its source
 datagrams, and with losses exactly when the code can decode what arrived.
 */
module EpochCompletion {
  import opened Assembly
  import opened AudioDecoderRuns
  import opened AudioDecoding
  import opened AudioTypes
  import opened ClosedWindows
  import opened EndToEnd
  import opened EpochDelivery
  import opened EpochEncoding
  import opened EpochSharding
  import opened ExactAssembly
  import opened GenuineAudio
  import opened InterleavedEpochs
  import opened MachineInts
  import opened Playout
  import opened RaptorQ
  import opened Session
  import opened SessionRuns
  import opened ShardHeaders
  import opened UnseenEpochs
  import opened Wrappers
  import Arithmetic
  import FecDecoding
  import Geometry

  // ----- whole runs

  /** Together with `had`, the events bring every source shard. */
  ghost predicate Covers(block: SentBlock, events: seq<Event>, had: set<u16>)
    requires block.Valid()
  {
    forall x: u16 | x < block.cut.Shards() :: x in had || Arrives(block.blockId, x) in events
  }

  lemma CoversNext(block: SentBlock, events: seq<Event>, had: set<u16>)
    requires block.Valid() && Covers(block, events, had) && events != []
    requires events[0].Arrives? && events[0].block == block.blockId ==> events[0].index < block.Datagrams()
    ensures Covers(block, events[1..], HadAfter(block, events[0], had))
  {
    hide Cut.Shards, SentBlock.Valid, Cut.Valid;
    assert events == [events[0]] + events[1..];
  }

  lemma {:induction false} CoveredEmerges(code: Code, sent: Sent, s: Receiver, b: u32, others: set<u32>, had: set<u16>,
                                          events: seq<Event>)
    requires code.Lawful() && Sends(sent) && Sound(s) && Amid(code, sent, s, b, others, had)
    requires AllAllowed(sent, b, others, sent[b].cut.epoch.ptsSamples, events) && Runs(code, sent, s, events)
    requires Covers(sent[b], events, had)
    ensures Emerges(code, sent, s, b, events)
    decreases |events|
  {
    hide Sound, Room, Delivers, After, HasExactly, SentDatagram, Cut.Shards, SentBlock.Datagrams, ExactReceiver, Wanted, Walks,
         HadAfter, Own, CallOf;
    if events == [] {
      NotAll(code, sent, s, b, had);
    } else {
      var e := events[0];
      assert Allowed(sent, b, others, sent[b].cut.epoch.ptsSamples, e);
      if !DeliversOwn(code, sent, s, b, e) {
        NextKeeps(code, sent, s, b, others, had, e);
        CoversNext(sent[b], events, had);
        CoveredEmerges(code, sent, Next(code, sent, s, e), b, others, HadAfter(sent[b], e, had), events[1..]);
      }
    }
  }

  /** At some moment the code can decode the datagrams of the block that arrived, `arrived` among them. */
  ghost predicate Decodable(code: Code, block: SentBlock, arrived: set<nat>, events: seq<Event>)
    requires block.Valid()
  {
    exists n :: 0 <= n <= |events| && CanDecode(code, block, arrived + IndicesOf(block.blockId, events[..n]))
  }

  lemma DecodableNext(code: Code, block: SentBlock, arrived: set<nat>, events: seq<Event>)
    requires block.Valid() && events != [] && !CanDecode(code, block, arrived)
    ensures Decodable(code, block, arrived, events)
            <==> Decodable(code, block, arrived + Own(block.blockId, events[0]), events[1..])
  {
    hide CanDecode, SentBlock.Valid, Own;
    var b, now := block.blockId, arrived + Own(block.blockId, events[0]);
    forall n | 1 <= n <= |events|
      ensures arrived + IndicesOf(b, events[..n]) == now + IndicesOf(b, events[1..][..n - 1])
    {
      assert events[..n][1..] == events[1..][..n - 1];
    }
    assert arrived + IndicesOf(b, events[..0]) == arrived;
    if Decodable(code, block, arrived, events) {
      var n :| 0 <= n <= |events| && CanDecode(code, block, arrived + IndicesOf(b, events[..n]));
      assert CanDecode(code, block, now + IndicesOf(b, events[1..][..n - 1]));
    }
    if Decodable(code, block, now, events[1..]) {
      var m :| 0 <= m <= |events[1..]| && CanDecode(code, block, now + IndicesOf(b, events[1..][..m]));
      assert CanDecode(code, block, arrived + IndicesOf(b, events[..m + 1]));
    }
  }

  lemma DecodableNow(code: Code, block: SentBlock, arrived: set<nat>, events: seq<Event>)
    requires block.Valid() && CanDecode(code, block, arrived)
    ensures Decodable(code, block, arrived, events)
  {
    hide CanDecode;
    assert arrived + IndicesOf(block.blockId, events[..0]) == arrived;
  }

  /** The shards handed over are those of the source datagrams that arrived. */
  ghost predicate Matching(c: Cut, had: set<u16>, arrived: set<nat>)
    requires c.Valid()
  {
    forall x: u16 | x < c.Shards() :: x in had <==> x as nat in arrived
  }

  lemma MatchingNext(block: SentBlock, had: set<u16>, arrived: set<nat>, e: Event)
    requires block.Valid() && Matching(block.cut, had, arrived)
    ensures Matching(block.cut, HadAfter(block, e, had), arrived + Own(block.blockId, e))
  {
    hide Cut.Shards, SentBlock.Valid, Cut.Valid;
  }

  /** All shards in means the code can decode. */
  lemma FullDecodes(code: Code, block: SentBlock, had: set<u16>, arrived: set<nat>)
    requires code.Lawful() && block.Valid() && Matching(block.cut, had, arrived) && Full(block.cut, had)
    ensures CanDecode(code, block, arrived)
  {
    hide Code.Lawful, FecDecoding.Decodes, FecDecoding.Source.SourceSymbols, Cut.Shards, ObjectOf, FecDecoding.Source.Valid;
    SourceValid(block);
    ShardsBelow(block.cut);
    ObjectIsSource(block.cut);
    FecDecoding.DecodesWhen(code, block.Source(), arrived);
    forall x: nat | x < block.cut.Shards() ensures x in arrived {
      var y: u16 := x;
      assert y in had;
    }
  }

  /** While nothing comes between block `b` and its window, it completes exactly when the code can decode. */
  lemma OwnDelivers(code: Code, sent: Sent, s: Receiver, b: u32, others: set<u32>, had: set<u16>, arrived: set<nat>, i: nat)
    requires code.Lawful() && Sends(sent) && Sound(s) && Amid(code, sent, s, b, others, had)
    requires Tracking(s, b, others, arrived) && Matching(sent[b].cut, had, arrived) && i < sent[b].Datagrams()
    ensures Delivers(code, sent, s, b, SentDatagram(code, sent[b], i)) <==> CanDecode(code, sent[b], arrived + {i})
  {
    hide Sound, Room, Delivers, After, HasExactly, SentDatagram, Cut.Shards, SentBlock.Datagrams, ExactReceiver, Wanted,
         CanDecode, Full, OwnIndex, FecDecoding.HeldIds, Matching, Near;
    PushCollects(code, sent, s, b, i, had);
    if Full(sent[b].cut, had + OwnIndex(sent[b], i)) {
      MatchingNext(sent[b], had, arrived, Arrives(b, i));
      FullDecodes(code, sent[b], had + OwnIndex(sent[b], i), arrived + {i});
    }
  }

  lemma {:induction false} TrackedEmerges(code: Code, sent: Sent, s: Receiver, b: u32, others: set<u32>, had: set<u16>,
                                          arrived: set<nat>, events: seq<Event>)
    requires code.Lawful() && Sends(sent) && Sound(s) && Amid(code, sent, s, b, others, had)
    requires AllAllowed(sent, b, others, sent[b].cut.epoch.ptsSamples, events) && Runs(code, sent, s, events)
    requires Tracking(s, b, others, arrived) && Matching(sent[b].cut, had, arrived) && !CanDecode(code, sent[b], arrived)
    ensures Emerges(code, sent, s, b, events) <==> Decodable(code, sent[b], arrived, events)
    decreases |events|
  {
    hide Sound, Room, Delivers, After, HasExactly, SentDatagram, Cut.Shards, SentBlock.Datagrams, ExactReceiver, Wanted, Walks,
         HadAfter, CanDecode, Tracking, Matching, Decodable;
    assert sent[b].blockId == b;
    if events == [] {
      NothingToDecode(code, sent[b], arrived);
    } else {
      var e := events[0];
      assert Allowed(sent, b, others, sent[b].cut.epoch.ptsSamples, e);
      var now := arrived + Own(b, e);
      DecodableNext(code, sent[b], arrived, events);
      if e.Arrives? && e.block == b {
        OwnDelivers(code, sent, s, b, others, had, arrived, e.index);
      } else {
        assert now == arrived;
      }
      if DeliversOwn(code, sent, s, b, e) {
        DecodableNow(code, sent[b], now, events[1..]);
      } else {
        NextKeeps(code, sent, s, b, others, had, e);
        MatchingNext(sent[b], had, arrived, e);
        TrackedEmerges(code, sent, Next(code, sent, s, e), b, others, HadAfter(sent[b], e, had), now, events[1..]);
      }
    }
  }

  lemma NothingToDecode(code: Code, block: SentBlock, arrived: set<nat>)
    requires block.Valid() && !CanDecode(code, block, arrived)
    ensures !Decodable(code, block, arrived, [])
  {
    hide CanDecode;
    assert forall n :: 0 <= n <= 0 ==> arrived + IndicesOf(block.blockId, [][..n]) == arrived;
  }

  // ----- the limits never change

  lemma {:induction false} SlotLimits(s: Receiver)
    ensures EnsureSlot(s).maxInflight == s.maxInflight
    decreases |s.order|
  {
    hide Remembered;
    if |s.inflight| >= s.maxInflight && s.order != [] {
      var oldest, popped := s.order[0], s.order[1..];
      SlotRound(s);
      SlotLimits(if oldest !in s.inflight then s.(order := popped)
                 else RememberIgnored(CountIncomplete(s.(order := popped, inflight := s.inflight - {oldest})), oldest));
    } else {
      SlotDone(s);
    }
  }

  lemma TakeShardLimits(s: Receiver, shard: Shard)
    requires Shapes(s) && ShardInRange(shard)
    ensures TakeShard(s, shard).0.maxInflight == s.maxInflight
  {
    hide EnsureSlot, EpochShape, EpochPush, NewEpoch, FinishedEpoch, BufferInsert;
    SlotKeepsShapes(CountShard(s, shard));
    NewEpochShape(shard.blockId, shard.header);
    SlotLimits(CountShard(s, shard));
  }

  lemma {:induction false} TakeShardsLimits(s: Receiver, shards: seq<Shard>, sofar: ReceiveOutcome)
    requires Shapes(s) && AllInRange(shards)
    ensures TakeShards(s, shards, sofar).0.maxInflight == s.maxInflight
    decreases |shards|
  {
    hide TakeShard, Shapes;
    if shards != [] {
      TakeShardKeepsShapes(s, shards[0]);
      TakeShardLimits(s, shards[0]);
      var one := TakeShard(s, shards[0]);
      if one.1.Success? {
        TakeFirst(s, shards, sofar);
        TakeShardsLimits(one.0, shards[1..], Outcomes(sofar, one.1.value));
      }
    }
  }

  lemma {:induction false} DropLimits(s: Receiver, blocks: seq<u32>)
    ensures Abandon(s, blocks).maxInflight == s.maxInflight && Abandon(s, blocks).flow == s.flow
    ensures DropAll(s, blocks).maxInflight == s.maxInflight && DropAll(s, blocks).flow == s.flow
    decreases |blocks|
  {
    hide Remembered;
    if blocks != [] {
      DropLimits(CountIncomplete(DropInflight(s, blocks[0])), blocks[1..]);
      DropLimits(DropInflight(s, blocks[0]), blocks[1..]);
    }
  }

  lemma CallLimits(code: Code, s: Receiver, call: Call)
    requires Sound(s)
    ensures var s' := After(code, s, call); s'.maxInflight == s.maxInflight && s'.flow.maxInFlight == s.flow.maxInFlight
  {
    hide PushedAudio, TakeShards, TableOk, Abandon, DropAll, BufferTake, BufferExpire, Shapes, AllInRange;
    SoundTable(s);
    SoundHasShapes(s);
    match call
    case Datagram(bytes) =>
      PushOk(code, s, bytes);
      PushKeeps(code, s.flow, bytes);
      var (flow', r) := PushedAudio(code, s.flow, bytes);
      ShapesKept(s, flow');
      var t := CountDatagram(s).(flow := flow');
      FlowCounted(s, flow');
      if r.Success? {
        TakeShardsLimits(t, r.value, ReceiveOutcome([], None));
        TakeShardsFlow(t, r.value, ReceiveOutcome([], None));
      }
    case TakePlayout(at, walk) => DropLimits(s, walk);
    case ExpireBefore(at, walk) => DropLimits(s.(playout := BufferExpire(s.playout, at).0), walk);
  }

  lemma {:induction false} RunLimits(code: Code, maxInflight: nat, maxBuffered: nat, calls: seq<Call>)
    requires Legal(code, maxInflight, maxBuffered, calls)
    ensures var s := Replay(code, maxInflight, maxBuffered, calls);
            s.maxInflight == Max(maxInflight, 1) && s.flow.maxInFlight == 128
    decreases |calls|
  {
    hide Sound, Walks, After;
    if calls != [] {
      var before := calls[..|calls| - 1];
      RunLimits(code, maxInflight, maxBuffered, before);
      CallLimits(code, Replay(code, maxInflight, maxBuffered, before), calls[|calls| - 1]);
    }
  }

  // ----- from the first datagram on

  /** Nothing was met of block `b`, and few enough others come: it is collected from nothing. */
  lemma UnseenCollects(code: Code, sent: Sent, s: Receiver, b: u32, others: set<u32>)
    requires Sends(sent) && Sound(s) && ExactReceiver(code, sent, s) && b in sent
    requires Unseen(s, b, sent[b].cut.epoch.ptsSamples)
    requires b !in others && |others| < s.flow.maxInFlight && |others| < s.maxInflight
    ensures Amid(code, sent, s, b, others, {}) && FecDecoding.HeldIds(s.flow.fec, b) == {} && b !in s.flow.fec.completed
  {
    hide GenuineFlow, ExactTable, ExactBuffer, BufferOk, Counted, Balanced, Cut.Shards, SlotAt, EpochHas, Pending, Ok;
    assert b !in s.order && b !in s.flow.inFlightOrder;
    assert DeliveredOf(s.flow, b) == {};
  }

  /** The epoch is on its way, and no datagram of it arrived in this run. */
  ghost predicate StillToCome(code: Code, sent: Sent, maxInflight: nat, maxBuffered: nat, calls: seq<Call>, b: u32)
    requires Sends(sent)
  {
    && b in sent && Legal(code, maxInflight, maxBuffered, calls)
    && WithoutBlock(code, sent, b, sent[b].cut.epoch.ptsSamples, calls)
  }

  /** Then these events happen: datagrams of the epoch and of few enough other blocks, reads and expiries before it. */
  ghost predicate ThenAmong(code: Code, sent: Sent, s: Receiver, b: u32, others: set<u32>, maxInflight: nat,
                            events: seq<Event>)
    requires Sends(sent) && Sound(s) && b in sent
  {
    && b !in others && |others| < 128 && |others| < Max(maxInflight, 1)
    && AllAllowed(sent, b, others, sent[b].cut.epoch.ptsSamples, events) && Runs(code, sent, s, events)
  }

  lemma RunCollects(code: Code, sent: Sent, maxInflight: nat, maxBuffered: nat, calls: seq<Call>, b: u32, others: set<u32>)
    requires code.Lawful() && Sends(sent) && StillToCome(code, sent, maxInflight, maxBuffered, calls, b)
    requires b !in others && |others| < 128 && |others| < Max(maxInflight, 1)
    ensures var s := Replay(code, maxInflight, maxBuffered, calls);
            Amid(code, sent, s, b, others, {}) && FecDecoding.HeldIds(s.flow.fec, b) == {} && b !in s.flow.fec.completed
  {
    hide Sound, ExactReceiver, Replay, WithoutBlock, Legal, Unseen, Amid;
    RunUnseen(code, sent, maxInflight, maxBuffered, calls, b, sent[b].cut.epoch.ptsSamples);
    RunLimits(code, maxInflight, maxBuffered, calls);
    UnseenCollects(code, sent, Replay(code, maxInflight, maxBuffered, calls), b, others);
  }

  /**
   Exact in the end: after any run of datagrams of other epochs and reads before this one's timestamp,
   its source datagrams, in any order, with repetitions, repairs and further reads, and interleaved with
   datagrams of fewer other blocks than may be in flight, complete the epoch exactly as it was sent.
   */
  lemma EpochCompletesAmongOthers(code: Code, sent: Sent, maxInflight: nat, maxBuffered: nat, calls: seq<Call>, b: u32,
                                  others: set<u32>, events: seq<Event>)
    requires code.Lawful() && Sends(sent) && StillToCome(code, sent, maxInflight, maxBuffered, calls, b)
    requires ThenAmong(code, sent, Replay(code, maxInflight, maxBuffered, calls), b, others, maxInflight, events)
    requires forall x: nat | x < sent[b].cut.Shards() :: Arrives(b, x) in events
    ensures Emerges(code, sent, Replay(code, maxInflight, maxBuffered, calls), b, events)
  {
    hide Sound, Replay, WithoutBlock, Legal, Amid, Emerges, Runs, Cut.Shards, AllAllowed;
    RunCollects(code, sent, maxInflight, maxBuffered, calls, b, others);
    assert sent[b].blockId == b;
    CoveredEmerges(code, sent, Replay(code, maxInflight, maxBuffered, calls), b, others, {}, events);
  }

  /**
   With any loss: while no other block closes more than the window ahead of it, the epoch completes
   exactly when at some moment the code can decode the datagrams of it that arrived by then.
   */
  lemma EpochCompletesWhenDecodable(code: Code, sent: Sent, maxInflight: nat, maxBuffered: nat, calls: seq<Call>, b: u32,
                                    others: set<u32>, events: seq<Event>)
    requires code.Lawful() && Sends(sent) && StillToCome(code, sent, maxInflight, maxBuffered, calls, b)
    requires ThenAmong(code, sent, Replay(code, maxInflight, maxBuffered, calls), b, others, maxInflight, events)
    requires Near(Replay(code, maxInflight, maxBuffered, calls).flow.inFlight + others, b)
    ensures Emerges(code, sent, Replay(code, maxInflight, maxBuffered, calls), b, events)
            <==> Decodable(code, sent[b], {}, events)
  {
    hide Sound, Replay, WithoutBlock, Legal, Amid, Emerges, Runs, Cut.Shards, AllAllowed, Decodable, FecDecoding.HeldIds,
         FecDecoding.WithinWindow, CanDecode;
    RunCollects(code, sent, maxInflight, maxBuffered, calls, b, others);
    NoneDecodes(code, sent[b]);
    TrackedEmerges(code, sent, Replay(code, maxInflight, maxBuffered, calls), b, others, {}, {}, events);
  }

  lemma NoneDecodes(code: Code, block: SentBlock)
    requires code.Lawful() && block.Valid()
    ensures !CanDecode(code, block, {})
  {
    hide Code.Lawful, FecDecoding.Decodes, ObjectOf, Cut.Shards;
    SourceValid(block);
    FecDecoding.DecodesWhen(code, block.Source(), {});
    Arithmetic.CeilDivCovers(|block.Source().data|, block.Source().symbolSize);
  }

  // ----- the premises can be met

  /** One mono group of one byte. */
  const TINY := Epoch(1, 1, 1, 960, 48_000, 480, [Group(7, 0, 1, Opus, Unspecified, 0, [0x2A])])

  lemma TinyIsEncodable()
    ensures Cut(TINY, 1).Encodable() && Cut(TINY, 1).Shards() == 1
  {
    var c := Cut(TINY, 1);
    var sizes := Geometry.PayloadSizes(TINY.groups);
    assert sizes == [1] && sizes[1..] == [];
    assert Geometry.SymbolCount(sizes, 1) == 1;
  }

  /** A lawful code, an epoch on its way, and its only source datagram: all premises are met. */
  lemma PremisesCanBeMet(blockId: u32, packetSequence: u32, maxInflight: nat, maxBuffered: nat)
    ensures var s := SentBlock(Cut(TINY, 1), blockId, packetSequence, 4);
            var sent, events := map[blockId := s], [Arrives(blockId, 0)];
            && SYSTEMATIC.Lawful() && Sends(sent) && s.Datagrams() == 5 && s.cut.Shards() == 1
            && StillToCome(SYSTEMATIC, sent, maxInflight, maxBuffered, [], blockId)
            && ThenAmong(SYSTEMATIC, sent, Replay(SYSTEMATIC, maxInflight, maxBuffered, []), blockId, {}, maxInflight, events)
            && Emerges(SYSTEMATIC, sent, Replay(SYSTEMATIC, maxInflight, maxBuffered, []), blockId, events)
  {
    hide Replay, Emerges, SentDatagram, Code.Lawful, Sound, After;
    SystematicIsLawful();
    TinyIsEncodable();
    var s := SentBlock(Cut(TINY, 1), blockId, packetSequence, 4);
    var sent, events := map[blockId := s], [Arrives(blockId, 0)];
    assert sent[blockId] == s && s.Datagrams() == 5;
    var start := Replay(SYSTEMATIC, maxInflight, maxBuffered, []);
    assert Walks(start, CallOf(SYSTEMATIC, sent, events[0]));
    assert Runs(SYSTEMATIC, sent, Next(SYSTEMATIC, sent, start, events[0]), events[1..]);
    assert Arrives(blockId, 0) in events;
    EpochCompletesAmongOthers(SYSTEMATIC, sent, maxInflight, maxBuffered, [], blockId, {}, events);
  }
}
