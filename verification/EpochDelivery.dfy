/** Progress: what one datagram of an epoch that is being collected does for it. */
module EpochDelivery {
  import opened Assembly
  import opened AudioDecoderRuns
  import opened AudioDecoding
  import opened AudioTypes
  import opened ByteCodec
  import opened EndToEnd
  import opened EpochEncoding
  import opened EpochSharding
  import opened ExactAssembly
  import opened GenuineAudio
  import opened MachineInts
  import opened RaptorQ
  import opened Session
  import opened SessionRuns
  import opened ShardHeaders
  import opened Wrappers

  /** A table entry is never complete, so some shard of the block is always still to come. */
  lemma SomethingMissing(code: Code, sent: Sent, s: Receiver, b: u32)
    requires Sends(sent) && ExactReceiver(code, sent, s) && b in sent
    ensures exists x: nat :: x < sent[b].cut.Shards() && !Has(s, sent[b].cut, b, x)
  {
    hide ObjectOf, GenuineFlow, ExactBuffer, ExactEpoch, Sound, AllFilled, EpochHas, SlotAt, Cut.Shards;
    var c := sent[b].cut;
    if forall x: nat | x < c.Shards() :: Has(s, c, b, x) {
      ObjectSize(c);
      assert Has(s, c, b, 0);
      NotFilled(s, b);
      forall x: nat | x < c.Shards() ensures EpochHas(s.inflight[b], SlotAt(c, x).group, SlotAt(c, x).fragment) {
        assert Has(s, c, b, x);
      }
      AllIn(c, b, s.inflight[b]);
    }
  }

  lemma NotFilled(s: Receiver, b: u32)
    requires Sound(s) && b in s.inflight
    ensures !AllFilled(s.inflight[b].groups)
  {
    hide BufferOk, Balanced, Counted, Consistent, EpochShape, AllFilled;
    assert Pending(s, b);
  }

  /** The receiver has exactly the shards in `had` of block `b`, and the decoder knows it. */
  ghost predicate Collecting(code: Code, sent: Sent, s: Receiver, b: u32, had: set<u16>)
    requires Sends(sent)
  {
    && ExactReceiver(code, sent, s) && b in sent
    && Wanted(s, sent[b].cut, b) && b !in s.flow.completed.members && DeliveredOf(s.flow, b) == had
    && HasExactly(s, sent[b].cut, b, had)
  }

  ghost predicate HasExactly(s: Receiver, c: Cut, b: u32, had: set<u16>)
    requires c.Valid()
  {
    forall x: u16 | x < c.Shards() :: Has(s, c, b, x) <==> x in had
  }

  function Indices(shards: seq<Shard>): set<u16> {
    set shard | shard in shards :: shard.header.sourceIndex
  }

  lemma {:induction false} EpochStays(s: Receiver, shards: seq<Shard>, sofar: ReceiveOutcome)
    requires Shapes(s) && AllInRange(shards) && sofar.epoch.Some?
    ensures var r := TakeShards(s, shards, sofar).1; r.Success? ==> r.value.epoch.Some?
    decreases |shards|
  {
    hide TakeShard, Shapes;
    if shards != [] {
      TakeShardKeepsShapes(s, shards[0]);
      var one := TakeShard(s, shards[0]);
      if one.1.Success? {
        TakeFirst(s, shards, sofar);
        EpochStays(one.0, shards[1..], Outcomes(sofar, one.1.value));
      }
    }
  }

  /** Every shard of the epoch is among these. */
  ghost predicate Full(c: Cut, had: set<u16>)
    requires c.Valid()
  {
    forall x: u16 | x < c.Shards() :: x in had
  }

  /** Shards of a wanted block: all of them are gained, or the epoch completes on the way, with the last one. */
  lemma {:induction false} TakeShardsGain(code: Code, sent: Sent, s: Receiver, b: u32, shards: seq<Shard>,
                                          sofar: ReceiveOutcome, had: set<u16>)
    requires Sends(sent) && ExactReceiver(code, sent, s) && b in sent && Shapes(s) && AllInRange(shards)
    requires GenuineShards(sent[b].cut, b, shards) && ExactOutcome(sent[b].cut.epoch, sofar)
    requires Wanted(s, sent[b].cut, b) && HasExactly(s, sent[b].cut, b, had)
    ensures var (s', r) := TakeShards(s, shards, sofar);
            && r.Success?
            && (r.value.epoch.None? ==> Wanted(s', sent[b].cut, b) && HasExactly(s', sent[b].cut, b, had + Indices(shards)))
            && (r.value.epoch.Some? && sofar.epoch.None? ==> Full(sent[b].cut, had + Indices(shards)))
    decreases |shards|
  {
    hide ExactReceiver, TakeShard, ShardAt, Cut.Shards, ExactOutcome, Shapes, Wanted, Has, EpochShape, AllFilled;
    var c := sent[b].cut;
    TakeShardsExact(code, sent, s, b, shards, sofar);
    if shards == [] {
      assert had + Indices(shards) == had;
    } else {
      var x := shards[0].header.sourceIndex;
      assert GenuineShard(c, b, shards[0]);
      TakeShardExact(code, sent, s, b, x, shards[0].recovery);
      TakeFirst(s, shards, sofar);
      var one := TakeShard(s, shards[0]);
      JoinedExact(c.epoch, sofar, one.1.value);
      if one.1.value.epoch.Some? {
        EpochStays(one.0, shards[1..], Outcomes(sofar, one.1.value));
        LastIsFull(s, c, b, x, had);
      } else {
        TakeShardsGain(code, sent, one.0, b, shards[1..], Outcomes(sofar, one.1.value), had + {x});
        assert had + {x} + Indices(shards[1..]) == had + Indices(shards);
      }
    }
  }

  lemma LastIsFull(s: Receiver, c: Cut, b: u32, x: u16, had: set<u16>)
    requires c.Valid() && WasLast(c, b, s, x) && HasExactly(s, c, b, had)
    ensures Full(c, had + {x})
  {
    hide Cut.Shards, Has;
    forall y: u16 | y < c.Shards() ensures y in had + {x} {
      assert Has(s, c, b, y) || y == x;
    }
  }

  lemma JoinedExact(epoch: Epoch, sofar: ReceiveOutcome, one: ReceiveOutcome)
    requires ExactOutcome(epoch, sofar) && ExactOutcome(epoch, one)
    ensures ExactOutcome(epoch, Outcomes(sofar, one))
  {
    hide IsGroupOf, IsEpoch;
  }

  lemma {:induction false} TakeShardsFlow(s: Receiver, shards: seq<Shard>, sofar: ReceiveOutcome)
    requires Sound(s) && Shapes(s) && AllInRange(shards)
    ensures TakeShards(s, shards, sofar).0.flow == s.flow
    decreases |shards|
  {
    hide Sound, TakeShard, Shapes;
    if shards != [] {
      TakeShardOk(s, shards[0]);
      TakeShardKeepsShapes(s, shards[0]);
      var one := TakeShard(s, shards[0]);
      if one.1.Success? {
        TakeFirst(s, shards, sofar);
        TakeShardsFlow(one.0, shards[1..], Outcomes(sofar, one.1.value));
      }
    }
  }

  lemma OutputIndices(c: Cut, b: u32, output: seq<Shard>, fresh': set<u16>)
    requires c.Valid() && GenuineOutput(c, b, output, fresh')
    ensures GenuineShards(c, b, output) && Indices(output) == fresh'
  {
    hide ShardAt, Cut.Shards;
    forall x | x in fresh' ensures x in Indices(output) {
      assert Carries(c, b, output, x);
      ShardAtIndex(c, b, x, Systematic);
      ShardAtIndex(c, b, x, Repaired);
    }
  }

  /** The bytes pushed complete the epoch of block `b`, exactly as it was sent. */
  ghost predicate Delivers(code: Code, sent: Sent, s: Receiver, b: u32, bytes: Bytes)
    requires Sends(sent) && Sound(s) && b in sent
  {
    SoundTable(s);
    SoundHasShapes(s);
    PushOk(code, s, bytes);
    var r := PushReceiver(code, s, bytes).1;
    r.Success? && r.value.epoch.Some? && IsEpoch(sent[b].cut.epoch, r.value.epoch.value)
  }

  /** Shards taken in after a push, and what is then missing. */
  lemma GainedOrComplete(code: Code, sent: Sent, s: Receiver, b: u32, i: nat, had: set<u16>, fresh': set<u16>)
    requires code.Lawful() && Sends(sent) && Collecting(code, sent, s, b, had) && i < sent[b].Datagrams() && Sound(s)
    requires var (flow', r) := PushedAudio(code, s.flow, SentDatagram(code, sent[b], i));
             r.Success? && GenuineOutput(sent[b].cut, b, r.value, fresh')
    ensures After(code, s, Datagram(SentDatagram(code, sent[b], i))).flow
            == PushedAudio(code, s.flow, SentDatagram(code, sent[b], i)).0
    ensures var s' := After(code, s, Datagram(SentDatagram(code, sent[b], i)));
            if Delivers(code, sent, s, b, SentDatagram(code, sent[b], i)) then Full(sent[b].cut, had + fresh')
            else Wanted(s', sent[b].cut, b) && HasExactly(s', sent[b].cut, b, had + fresh')
  {
    hide PushedAudio, SentDatagram, TakeShards, GenuineFlow, Sound, GenuineShards, Shapes, Cut.Shards, GenuineOutput,
         IsEpoch, ExactTable, ExactBuffer, AllInRange, TableOk, EpochHas, IsGroupOf, Full, HasExactly, Wanted;
    var datagram := SentDatagram(code, sent[b], i);
    SoundTable(s);
    SoundHasShapes(s);
    PushOk(code, s, datagram);
    PushExact(code, sent, s, b, i);
    OutputGenuine(code, sent, s.flow, b, i);
    var pushed := PushedAudio(code, s.flow, datagram);
    OutputIndices(sent[b].cut, b, pushed.1.value, fresh');
    FlowExact(code, sent, s, pushed.0);
    var t := CountDatagram(s).(flow := pushed.0);
    ShapesKept(s, pushed.0);
    Recounted(s, sent[b].cut, b, t);
    TakeShardsFlow(t, pushed.1.value, ReceiveOutcome([], None));
    TakeShardsGain(code, sent, t, b, pushed.1.value, ReceiveOutcome([], None), had);
  }

  lemma Recounted(s: Receiver, c: Cut, b: u32, t: Receiver)
    requires c.Valid() && t.inflight == s.inflight && t.playout == s.playout && t.ignored == s.ignored
    ensures Wanted(t, c, b) <==> Wanted(s, c, b)
    ensures forall had :: HasExactly(t, c, b, had) <==> HasExactly(s, c, b, had)
  {
    hide Cut.Shards, SlotAt, EpochHas;
    forall x: nat | x < c.Shards() ensures Has(t, c, b, x) <==> Has(s, c, b, x) {}
  }

  /**
   One more datagram of the block: its shard is added, or the epoch is complete; and it is exactly when
   this was the last shard or lets the code recover the rest.
   */
  lemma PushCollects(code: Code, sent: Sent, s: Receiver, b: u32, i: nat, had: set<u16>)
    requires code.Lawful() && Sends(sent) && Collecting(code, sent, s, b, had) && i < sent[b].Datagrams() && Sound(s)
    ensures Delivers(code, sent, s, b, SentDatagram(code, sent[b], i))
            <==> Recovers(code, sent[b], s.flow, i) || Full(sent[b].cut, had + OwnIndex(sent[b], i))
    ensures !Delivers(code, sent, s, b, SentDatagram(code, sent[b], i)) ==>
              Collecting(code, sent, After(code, s, Datagram(SentDatagram(code, sent[b], i))), b, had + OwnIndex(sent[b], i))
  {
    hide PushedAudio, SentDatagram, PushReceiver, GenuineFlow, Sound, Cut.Shards, GenuineOutput, ExactReceiver, Wanted,
         Delivers, After, OwnIndex, HasExactly, ExactCall, Recovers, Full;
    var datagram := SentDatagram(code, sent[b], i);
    var s' := After(code, s, Datagram(datagram));
    CallExact(code, sent, s, Datagram(datagram));
    FlowIsGenuine(code, sent, s);
    GenuinePush(code, sent, s.flow, b, i);
    var (flow', r) := PushedAudio(code, s.flow, datagram);
    ShardsBelow(sent[b].cut);
    var own, all := OwnIndex(sent[b], i), FirstIndices(sent[b].cut.Shards());
    if b !in flow'.completed.members {
      OwnProgress(sent[b], i, s.flow, flow', r.value);
      GainedOrComplete(code, sent, s, b, i, had, own - had);
      assert had + (own - had) == had + own;
      if !Delivers(code, sent, s, b, datagram) {
        NotFull(code, sent, s', b, had + own);
      }
    } else {
      AllProgress(sent[b], i, s.flow, flow', r.value);
      GainedOrComplete(code, sent, s, b, i, had, all - had);
      if !Delivers(code, sent, s, b, datagram) {
        NotFull(code, sent, s', b, had + (all - had));
        AllIsFull(sent[b].cut, had);
      }
    }
  }

  lemma OwnProgress(s: SentBlock, i: nat, before: Flow, after: Flow, output: seq<Shard>)
    requires s.Valid() && Progress(s, i, before, after, output) && s.blockId !in after.completed.members
    ensures GenuineOutput(s.cut, s.blockId, output, OwnIndex(s, i) - DeliveredOf(before, s.blockId))
    ensures DeliveredOf(after, s.blockId) == DeliveredOf(before, s.blockId) + OwnIndex(s, i)
  {
  }

  lemma AllProgress(s: SentBlock, i: nat, before: Flow, after: Flow, output: seq<Shard>)
    requires s.Valid() && Progress(s, i, before, after, output) && s.blockId in after.completed.members
    ensures s.cut.Shards() <= U16_MAX
    ensures GenuineOutput(s.cut, s.blockId, output, FirstIndices(s.cut.Shards()) - DeliveredOf(before, s.blockId))
  {
    ShardsBelow(s.cut);
  }

  lemma AllIsFull(c: Cut, had: set<u16>)
    requires c.Valid() && c.Shards() <= U16_MAX
    ensures Full(c, had + (FirstIndices(c.Shards()) - had))
  {
  }

  lemma FlowIsGenuine(code: Code, sent: Sent, s: Receiver)
    requires Sends(sent) && ExactReceiver(code, sent, s)
    ensures GenuineFlow(code, sent, s.flow)
  {
  }

  lemma NotFull(code: Code, sent: Sent, s: Receiver, b: u32, had: set<u16>)
    requires Sends(sent) && ExactReceiver(code, sent, s) && b in sent && HasExactly(s, sent[b].cut, b, had)
    ensures !Full(sent[b].cut, had)
  {
    hide ExactReceiver, HasExactly, Cut.Shards;
    NotAll(code, sent, s, b, had);
  }

  lemma NotAll(code: Code, sent: Sent, s: Receiver, b: u32, had: set<u16>)
    requires Sends(sent) && ExactReceiver(code, sent, s) && b in sent && HasExactly(s, sent[b].cut, b, had)
    ensures exists x: u16 :: x < sent[b].cut.Shards() && x !in had
  {
    hide ExactReceiver, Has, Cut.Shards;
    SomethingMissing(code, sent, s, b);
    ShardsBelow(sent[b].cut);
    var x: nat :| x < sent[b].cut.Shards() && !Has(s, sent[b].cut, b, x);
    var y: u16 := x;
    assert y !in had;
  }
}
