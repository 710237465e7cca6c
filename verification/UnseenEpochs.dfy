/**
 An epoch none of whose datagrams arrived yet leaves no trace in the receiver, whatever else happens;
 so it can always still be completed, until a read reaches its timestamp.
 */
module UnseenEpochs {
  import opened Assembly
  import opened AudioDecoding
  import opened ByteCodec
  import opened ClosedWindows
  import opened Datagram
  import opened EndToEnd
  import opened EpochEncoding
  import opened EpochSharding
  import opened GenuineAudio
  import opened MachineInts
  import opened Playout
  import opened RaptorQ
  import opened Session
  import opened SessionRuns
  import opened ShardHeaders
  import opened Wrappers
  import Collections
  import FecDecoding

  // ----- the decoder

  ghost predicate UnknownTo(flow: Flow, b: u32) {
    b !in flow.completed.members && b !in flow.delivered && b !in flow.inFlight && b !in flow.fec.completed
  }

  lemma {:induction false} EvictUnknown(s: Flow, b: u32)
    requires UnknownTo(s, b)
    ensures UnknownTo(EvictOldest(s), b)
    decreases |s.inFlightOrder|
  {
    hide Remembered;
    if |s.inFlight| > s.maxInFlight && s.inFlightOrder != [] {
      var oldest, popped := s.inFlightOrder[0], s.(inFlightOrder := s.inFlightOrder[1..]);
      RememberedOnly(s.completed, oldest, s.maxCompleted);
      FecDecoding.ClosedCloses(s.fec, oldest);
      hide FecDecoding.Closed;
      EvictUnknown(
        if oldest !in s.inFlight then popped
        else RememberClosed(popped.(inFlight := s.inFlight - {oldest}, fec := FecDecoding.Closed(s.fec, oldest),
                                    delivered := s.delivered - {oldest}), oldest), b);
    }
  }

  lemma DeliveredUnknown(s: Flow, header: Header, candidate: Option<Shard>, recovered: Option<Bytes>, b: u32)
    requires UnknownTo(s, b) && header.blockId != b
    ensures UnknownTo(Delivered(s, header, candidate, recovered).0, b)
  {
    hide Remembered, FillHoles;
    RememberedOnly(s.completed, header.blockId, s.maxCompleted);
  }

  lemma OnlyThisCloses(code: Code, fec: FecDecoding.Decoder, datagram: Bytes, b: u32)
    requires DecodeHeader(datagram).Success? && DecodeHeader(datagram).value.blockId != b && b !in fec.completed
    ensures b !in FecDecoding.Pushed(code, fec, datagram).0.completed
  {
    hide DecodeHeader, Header.Payload, DeserializePacket;
  }

  lemma PushUnknown(code: Code, s: Flow, datagram: Bytes, b: u32)
    requires UnknownTo(s, b)
    requires DecodeHeader(datagram).Success? ==> DecodeHeader(datagram).value.blockId != b
    ensures UnknownTo(PushedAudio(code, s, datagram).0, b)
  {
    hide DecodeHeader, Header.Payload, DeserializePacket, Delivered, EvictOldest, FecDecoding.Pushed, Candidate;
    if DecodeHeader(datagram).Success? {
      var header := DecodeHeader(datagram).value;
      var fec' := FecDecoding.Pushed(code, s.fec, datagram).0;
      OnlyThisCloses(code, s.fec, datagram, b);
      var t := s.(fec := fec');
      EvictUnknown(t.(inFlight := t.inFlight + {header.blockId}, inFlightOrder := t.inFlightOrder + [header.blockId]), b);
      forall candidate, recovered
        ensures UnknownTo(Delivered(t, header, candidate, recovered).0, b)
        ensures UnknownTo(Delivered(ObserveInFlight(t, header.blockId), header, candidate, recovered).0, b)
      {
        DeliveredUnknown(t, header, candidate, recovered, b);
        DeliveredUnknown(ObserveInFlight(t, header.blockId), header, candidate, recovered, b);
      }
    }
  }

  // ----- the receiver

  /** No trace of block `b`, and no read reached timestamp `pts`. */
  ghost predicate Unseen(s: Receiver, b: u32, pts: u64) {
    UnknownTo(s.flow, b) && b !in s.inflight && b !in s.ignored.members && !IsLate(s.playout, pts)
  }

  lemma {:induction false} SlotUnseen(s: Receiver, b: u32, pts: u64)
    requires Unseen(s, b, pts)
    ensures Unseen(EnsureSlot(s), b, pts)
    decreases |s.order|
  {
    hide Remembered;
    if |s.inflight| >= s.maxInflight && s.order != [] {
      var oldest, popped := s.order[0], s.order[1..];
      RememberedOnly(s.ignored, oldest, s.maxIgnored);
      SlotRound(s);
      SlotUnseen(if oldest !in s.inflight then s.(order := popped)
                 else RememberIgnored(CountIncomplete(s.(order := popped, inflight := s.inflight - {oldest})), oldest), b, pts);
    } else {
      SlotDone(s);
    }
  }

  lemma AssembleUnseen(s: Receiver, shard: Shard, b: u32, pts: u64)
    requires shard.blockId in s.inflight && EpochShape(s.inflight[shard.blockId]) && ShardInRange(shard)
    requires Unseen(s, b, pts) && shard.blockId != b
    ensures Unseen(Assemble(s, shard).0, b, pts)
  {
    hide EpochPush, WithoutEarliest, FinishedEpoch;
  }

  lemma TakeShardUnseen(s: Receiver, shard: Shard, b: u32, pts: u64)
    requires Shapes(s) && ShardInRange(shard) && Unseen(s, b, pts) && shard.blockId != b
    ensures Unseen(TakeShard(s, shard).0, b, pts)
  {
    hide Assemble, EnsureSlot, EpochShape;
    var counted := CountShard(s, shard);
    SlotKeepsShapes(counted);
    SlotUnseen(counted, b, pts);
    NewEpochShape(shard.blockId, shard.header);
    if !(shard.blockId in s.ignored.members || IsLate(s.playout, shard.header.ptsSamples)) {
      AssembleUnseen(OpenAssembly(if shard.blockId in s.inflight then counted else EnsureSlot(counted), shard), shard, b, pts);
    }
  }

  lemma {:induction false} TakeShardsUnseen(s: Receiver, shards: seq<Shard>, sofar: ReceiveOutcome, b: u32, pts: u64)
    requires Shapes(s) && AllInRange(shards) && Unseen(s, b, pts)
    requires forall shard | shard in shards :: shard.blockId != b
    ensures Unseen(TakeShards(s, shards, sofar).0, b, pts)
    decreases |shards|
  {
    hide TakeShard, Shapes, Unseen;
    if shards != [] {
      TakeShardKeepsShapes(s, shards[0]);
      TakeShardUnseen(s, shards[0], b, pts);
      var one := TakeShard(s, shards[0]);
      if one.1.Success? {
        TakeFirst(s, shards, sofar);
        TakeShardsUnseen(one.0, shards[1..], Outcomes(sofar, one.1.value), b, pts);
      }
    }
  }

  /** A datagram of another epoch. */
  lemma PushUnseen(code: Code, sent: Sent, s: Receiver, other: u32, i: nat, b: u32, pts: u64)
    requires code.Lawful() && Sends(sent) && ExactReceiver(code, sent, s) && Shapes(s)
    requires other in sent && other != b && i < sent[other].Datagrams() && Unseen(s, b, pts)
    requires var r := PushedAudio(code, s.flow, SentDatagram(code, sent[other], i)).1; r.Success? ==> AllInRange(r.value)
    ensures Unseen(PushReceiver(code, s, SentDatagram(code, sent[other], i)).0, b, pts)
  {
    hide PushedAudio, SentDatagram, TakeShards, GenuineFlow, Sound, Shapes, Cut.Shards, ShardAt, DecodeHeader, Header.Payload,
         DeserializePacket, ExactTable, ExactBuffer, SentBlock.Datagrams, AllInRange;
    var datagram := SentDatagram(code, sent[other], i);
    OutputGenuine(code, sent, s.flow, other, i);
    SentBlockId(code, sent[other], i);
    PushUnknown(code, s.flow, datagram, b);
    var (flow', r) := PushedAudio(code, s.flow, datagram);
    ShapesKept(s, flow');
    forall shard | shard in r.value ensures shard.blockId != b {
      assert GenuineShard(sent[other].cut, other, shard);
      ShardAtIndex(sent[other].cut, other, shard.header.sourceIndex, shard.recovery);
    }
    TakeShardsUnseen(CountDatagram(s).(flow := flow'), r.value, ReceiveOutcome([], None), b, pts);
  }

  lemma SentBlockId(code: Code, s: SentBlock, i: nat)
    requires code.Lawful() && s.Valid() && i < s.Datagrams()
    ensures DecodeHeader(SentDatagram(code, s, i)).Success?
    ensures DecodeHeader(SentDatagram(code, s, i)).value.blockId == s.blockId
  {
    hide SentDatagram, DecodeHeader, Header.Payload, DeserializePacket;
    SentDatagramParses(code, s, i);
  }

  lemma DropUnseen(s: Receiver, block: u32, b: u32, pts: u64)
    requires Unseen(s, b, pts) && block in s.inflight
    ensures Unseen(DropInflight(s, block), b, pts) && DropInflight(s, block).inflight == s.inflight - {block}
  {
    hide Remembered;
    RememberedOnly(s.ignored, block, s.maxIgnored);
  }

  lemma {:induction false} AbandonUnseen(s: Receiver, blocks: seq<u32>, b: u32, pts: u64)
    requires Unseen(s, b, pts) && Collections.NoRepeats(blocks) && forall x | x in blocks :: x in s.inflight
    ensures Unseen(Abandon(s, blocks), b, pts)
    decreases |blocks|
  {
    hide DropInflight;
    if blocks != [] {
      DropUnseen(s, blocks[0], b, pts);
      assert blocks == [blocks[0]] + blocks[1..];
      AbandonUnseen(CountIncomplete(DropInflight(s, blocks[0])), blocks[1..], b, pts);
    }
  }

  lemma {:induction false} DropAllUnseen(s: Receiver, blocks: seq<u32>, b: u32, pts: u64)
    requires Unseen(s, b, pts) && Collections.NoRepeats(blocks) && forall x | x in blocks :: x in s.inflight
    ensures Unseen(DropAll(s, blocks), b, pts)
    decreases |blocks|
  {
    hide DropInflight;
    if blocks != [] {
      DropUnseen(s, blocks[0], b, pts);
      assert blocks == [blocks[0]] + blocks[1..];
      DropAllUnseen(DropInflight(s, blocks[0]), blocks[1..], b, pts);
    }
  }

  // ----- whole runs

  /** A datagram of a sent epoch other than `b`. */
  ghost predicate OfAnother(code: Code, sent: Sent, b: u32, bytes: Bytes)
    requires Sends(sent)
  {
    exists other, i: nat ::
      other in sent && other != b && i < sent[other].Datagrams() && bytes == SentDatagram(code, sent[other], i)
  }

  /** Datagrams of other epochs, and reads before timestamp `pts`. */
  ghost predicate WithoutBlock(code: Code, sent: Sent, b: u32, pts: u64, calls: seq<Call>)
    requires Sends(sent)
  {
    forall k | 0 <= k < |calls| ::
      match calls[k]
      case Datagram(bytes) => OfAnother(code, sent, b, bytes)
      case TakePlayout(at, _) => at < pts
      case ExpireBefore(_, _) => true
  }

  lemma CallUnseen(code: Code, sent: Sent, s: Receiver, call: Call, b: u32, pts: u64)
    requires code.Lawful() && Sends(sent) && Sound(s) && ExactReceiver(code, sent, s) && Walks(s, call) && Unseen(s, b, pts)
    requires WithoutBlock(code, sent, b, pts, [call])
    ensures Unseen(After(code, s, call), b, pts)
  {
    hide Sound, ExactReceiver, PushReceiver, SentDatagram, Shapes, AllInRange, PushedAudio, Abandon, DropAll, TableOk,
         SentBlock.Datagrams, UnknownTo;
    SoundTable(s);
    SoundHasShapes(s);
    assert [call][0] == call;
    match call
    case Datagram(bytes) =>
      var other, i: nat :|
        other in sent && other != b && i < sent[other].Datagrams() && bytes == SentDatagram(code, sent[other], i);
      PushOk(code, s, bytes);
      PushUnseen(code, sent, s, other, i, b, pts);
    case TakePlayout(at, walk) => AbandonUnseen(s, walk, b, pts);
    case ExpireBefore(at, walk) => DropAllUnseen(s.(playout := BufferExpire(s.playout, at).0), walk, b, pts);
  }

  lemma {:induction false} RunUnseen(code: Code, sent: Sent, maxInflight: nat, maxBuffered: nat, calls: seq<Call>, b: u32,
                                     pts: u64)
    requires code.Lawful() && Sends(sent) && Legal(code, maxInflight, maxBuffered, calls)
    requires WithoutBlock(code, sent, b, pts, calls)
    ensures var s := Replay(code, maxInflight, maxBuffered, calls); ExactReceiver(code, sent, s) && Unseen(s, b, pts)
    decreases |calls|
  {
    hide Sound, ExactReceiver, Walks, After, OfAnother, Unseen;
    OthersAreGenuine(code, sent, b, pts, calls);
    RunExact(code, sent, maxInflight, maxBuffered, calls);
    if calls == [] {
      NothingSeen(maxInflight, maxBuffered, b, pts);
    } else {
      var n := |calls| - 1;
      RunUnseen(code, sent, maxInflight, maxBuffered, calls[..n], b, pts);
      assert WithoutBlock(code, sent, b, pts, [calls[n]]);
      CallUnseen(code, sent, Replay(code, maxInflight, maxBuffered, calls[..n]), calls[n], b, pts);
    }
  }

  lemma NothingSeen(maxInflight: nat, maxBuffered: nat, b: u32, pts: u64)
    ensures Unseen(NewReceiver(maxInflight, maxBuffered), b, pts)
  {
  }

  lemma OthersAreGenuine(code: Code, sent: Sent, b: u32, pts: u64, calls: seq<Call>)
    requires Sends(sent) && WithoutBlock(code, sent, b, pts, calls)
    ensures GenuineCalls(code, sent, calls)
  {
    hide SentDatagram, SentBlock.Datagrams;
    forall k | 0 <= k < |calls| && calls[k].Datagram? ensures Genuine(code, sent, calls[k].bytes) {
      assert OfAnother(code, sent, b, calls[k].bytes);
    }
  }
}
