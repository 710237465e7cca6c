/**
 From completion to playout: an epoch that completed in time is what the next read of its timestamp
 returns, unless the buffer filled up with later ones.
 */
module PlayedEpochs {
  import opened Assembly
  import opened AudioDecoderRuns
  import opened AudioDecoding
  import opened AudioTypes
  import opened ClosedWindows
  import opened Collections
  import opened EndToEnd
  import opened EpochCompletion
  import opened EpochDelivery
  import opened EpochEncoding
  import opened EpochSharding
  import opened ExactAssembly
  import opened GenuineAudio
  import opened InterleavedEpochs
  import opened MachineInts
  import opened Playout
  import opened RaptorQ
  import opened Session
  import opened SessionRuns
  import opened ShardHeaders
  import opened UnseenEpochs
  import opened Wrappers

  // ----- the buffer

  function Later(b: Buffer, pts: u64): set<u64> {
    set k | k in b.epochs && k > pts
  }

  /** The buffer holds as many epochs as it can, all of them later than `pts`. */
  ghost predicate Crowded(b: Buffer, pts: u64) {
    |Later(b, pts)| >= b.max
  }

  /** The buffer holds the epoch, or it is full of later ones. */
  ghost predicate Kept(b: Buffer, epoch: Epoch) {
    || (epoch.ptsSamples in b.epochs && IsEpoch(epoch, b.epochs[epoch.ptsSamples]))
    || Crowded(b, epoch.ptsSamples)
  }

  lemma Larger(xs: set<u64>, ys: set<u64>)
    requires xs <= ys
    ensures |xs| <= |ys|
  {
    Smaller(xs, ys);
  }

  lemma InsertCrowded(b: Buffer, epoch: DecodedEpoch, pts: u64)
    requires Crowded(b, pts)
    ensures Crowded(BufferInsert(b, epoch).0, pts)
  {
    hide BufferInsert;
    InsertIs(b, epoch);
    var b' := BufferInsert(b, epoch).0;
    if k :| k in b'.epochs && k <= pts {
      Larger(Later(b, pts), Later(b', pts));
    } else {
      assert Later(b', pts) == b'.epochs.Keys;
      Larger(Later(b, pts), b.epochs.Keys);
      Larger(b.epochs.Keys, b.epochs.Keys + {epoch.ptsSamples});
    }
  }

  lemma AllOfThem(xs: set<u64>, ys: set<u64>)
    requires xs <= ys && |xs| == |ys|
    ensures xs == ys
  {
    assert ys == xs + (ys - xs);
  }

  /** If one timestamp had to go, everything kept is later. */
  lemma AllLater(b: Buffer, epoch: DecodedEpoch, b': Buffer, r: InsertOutcome, pts: u64)
    requires InsertedInto(b, epoch, b', r) && pts in b.epochs.Keys + {epoch.ptsSamples} && pts !in b'.epochs
    requires !IsLate(b, epoch.ptsSamples) || pts in b.epochs
    ensures Crowded(b', pts)
  {
    var keys := b.epochs.Keys + {epoch.ptsSamples};
    assert |b'.epochs.Keys| == |b'.epochs|;
    if |keys| <= b.max {
      AllOfThem(b'.epochs.Keys, keys);
    }
    assert Later(b', pts) == b'.epochs.Keys;
  }

  /** What is evicted makes room for later epochs only. */
  lemma InsertKeeps(b: Buffer, epoch: DecodedEpoch, pts: u64)
    requires pts in b.epochs
    ensures var b' := BufferInsert(b, epoch).0;
            (pts in b'.epochs && b'.epochs[pts] == b.epochs[pts]) || Crowded(b', pts)
  {
    hide BufferInsert;
    InsertIs(b, epoch);
    var b' := BufferInsert(b, epoch).0;
    if pts !in b'.epochs {
      AllLater(b, epoch, b', BufferInsert(b, epoch).1, pts);
    }
  }

  /** An epoch in time is in the buffer after its insertion, or another of its timestamp was there. */
  lemma InsertTakes(b: Buffer, epoch: DecodedEpoch)
    requires !IsLate(b, epoch.ptsSamples)
    ensures var b', pts := BufferInsert(b, epoch).0, epoch.ptsSamples;
            || (pts in b'.epochs && b'.epochs[pts] == if pts in b.epochs then b.epochs[pts] else epoch)
            || Crowded(b', pts)
  {
    hide BufferInsert;
    InsertIs(b, epoch);
    var b', pts := BufferInsert(b, epoch).0, epoch.ptsSamples;
    if pts !in b'.epochs {
      AllLater(b, epoch, b', BufferInsert(b, epoch).1, pts);
    }
  }

  lemma InsertKept(b: Buffer, inserted: DecodedEpoch, epoch: Epoch)
    ensures Kept(b, epoch) ==> Kept(BufferInsert(b, inserted).0, epoch)
    ensures (IsEpoch(epoch, inserted) && !IsLate(b, epoch.ptsSamples) && (epoch.ptsSamples in b.epochs ==> Kept(b, epoch)))
            ==> Kept(BufferInsert(b, inserted).0, epoch)
  {
    hide BufferInsert, Crowded;
    var pts := epoch.ptsSamples;
    if Crowded(b, pts) {
      InsertCrowded(b, inserted, pts);
    } else {
      if pts in b.epochs {
        InsertKeeps(b, inserted, pts);
      }
      if IsEpoch(epoch, inserted) && !IsLate(b, pts) {
        InsertTakes(b, inserted);
      }
    }
  }

  // ----- the receiver

  lemma {:induction false} SlotPlayout(s: Receiver)
    ensures EnsureSlot(s).playout == s.playout
    decreases |s.order|
  {
    hide Remembered;
    if |s.inflight| >= s.maxInflight && s.order != [] {
      var oldest, popped := s.order[0], s.order[1..];
      SlotRound(s);
      SlotPlayout(if oldest !in s.inflight then s.(order := popped)
                  else RememberIgnored(CountIncomplete(s.(order := popped, inflight := s.inflight - {oldest})), oldest));
    } else {
      SlotDone(s);
    }
  }

  /** A shard keeps what the buffer has; and if it completes the epoch in time, the buffer has it. */
  ghost predicate KeepsOrTakes(before: Buffer, after: Buffer, r: Result<ReceiveOutcome, SessionError>, epoch: Epoch) {
    && after.lastPlayed == before.lastPlayed
    && (Kept(before, epoch) ==> Kept(after, epoch))
    && ((r.Success? && r.value.epoch.Some? && IsEpoch(epoch, r.value.epoch.value) && !IsLate(before, epoch.ptsSamples)
         && (epoch.ptsSamples in before.epochs ==> Kept(before, epoch))) ==> Kept(after, epoch))
  }

  lemma AssembleKeeps(s: Receiver, shard: Shard, epoch: Epoch)
    requires shard.blockId in s.inflight && EpochShape(s.inflight[shard.blockId]) && ShardInRange(shard)
    ensures var (s', r) := Assemble(s, shard); KeepsOrTakes(s.playout, s'.playout, r, epoch)
  {
    hide EpochPush, FinishedEpoch, BufferInsert, Kept, IsEpoch, Without, EpochShape;
    var assembly := EpochPush(s.inflight[shard.blockId], shard).0;
    if AllFilled(assembly.groups) {
      InsertKept(s.playout, FinishedEpoch(assembly), epoch);
      InsertIs(s.playout, FinishedEpoch(assembly));
    }
  }

  lemma TakeShardKeeps(s: Receiver, shard: Shard, epoch: Epoch)
    requires Shapes(s) && ShardInRange(shard)
    ensures var (s', r) := TakeShard(s, shard); KeepsOrTakes(s.playout, s'.playout, r, epoch)
  {
    hide Assemble, EnsureSlot, EpochShape, Kept, IsEpoch;
    var counted := CountShard(s, shard);
    SlotKeepsShapes(counted);
    SlotPlayout(counted);
    NewEpochShape(shard.blockId, shard.header);
    if !(shard.blockId in s.ignored.members || IsLate(s.playout, shard.header.ptsSamples)) {
      AssembleKeeps(OpenAssembly(if shard.blockId in s.inflight then counted else EnsureSlot(counted), shard), shard, epoch);
    }
  }

  lemma {:induction false} TakeShardsKeep(s: Receiver, shards: seq<Shard>, sofar: ReceiveOutcome, epoch: Epoch)
    requires Shapes(s) && AllInRange(shards) && Kept(s.playout, epoch)
    ensures Kept(TakeShards(s, shards, sofar).0.playout, epoch)
    decreases |shards|
  {
    hide TakeShard, Shapes, Kept, IsEpoch;
    if shards != [] {
      TakeShardKeepsShapes(s, shards[0]);
      TakeShardKeeps(s, shards[0], epoch);
      var one := TakeShard(s, shards[0]);
      if one.1.Success? {
        TakeFirst(s, shards, sofar);
        TakeShardsKeep(one.0, shards[1..], Outcomes(sofar, one.1.value), epoch);
      }
    }
  }

  /** No other epoch on its way has this one's timestamp. */
  ghost predicate OnlyAtItsTime(sent: Sent, b: u32)
    requires b in sent
  {
    forall x | x in sent && sent[x].cut.epoch.ptsSamples == sent[b].cut.epoch.ptsSamples :: x == b
  }

  lemma PresentIsOwn(code: Code, sent: Sent, s: Receiver, b: u32)
    requires Sends(sent) && ExactReceiver(code, sent, s) && b in sent && OnlyAtItsTime(sent, b)
    ensures sent[b].cut.epoch.ptsSamples in s.playout.epochs ==> Kept(s.playout, sent[b].cut.epoch)
  {
    hide GenuineFlow, ExactTable, TableOk, Balanced, Counted, Consistent;
    var pts := sent[b].cut.epoch.ptsSamples;
    if pts in s.playout.epochs {
      var x :| x in sent && IsEpoch(sent[x].cut.epoch, s.playout.epochs[pts]);
    }
  }

  /** Shards of the epoch itself: once they complete it, the buffer has it. */
  lemma {:induction false} TakeShardsDeliver(code: Code, sent: Sent, s: Receiver, b: u32, shards: seq<Shard>,
                                             sofar: ReceiveOutcome)
    requires Sends(sent) && ExactReceiver(code, sent, s) && b in sent && Shapes(s) && AllInRange(shards)
    requires GenuineShards(sent[b].cut, b, shards) && OnlyAtItsTime(sent, b) && !IsLate(s.playout, sent[b].cut.epoch.ptsSamples)
    requires sofar.epoch.Some? ==> Kept(s.playout, sent[b].cut.epoch)
    ensures var (s', r) := TakeShards(s, shards, sofar);
            r.Success? && r.value.epoch.Some? ==> Kept(s'.playout, sent[b].cut.epoch)
    decreases |shards|
  {
    hide ExactReceiver, TakeShard, ShardAt, Cut.Shards, Shapes, Kept, IsEpoch, OnlyAtItsTime, Has, Wanted, AllFilled, IsGroupOf;
    if shards != [] {
      var c := sent[b].cut;
      assert GenuineShard(c, b, shards[0]);
      TakeShardExact(code, sent, s, b, shards[0].header.sourceIndex, shards[0].recovery);
      TakeShardKeepsShapes(s, shards[0]);
      TakeShardKeeps(s, shards[0], c.epoch);
      PresentIsOwn(code, sent, s, b);
      TakeFirst(s, shards, sofar);
      var one := TakeShard(s, shards[0]);
      StillInTime(s.playout, one.0.playout, c.epoch.ptsSamples);
      TakeShardsDeliver(code, sent, one.0, b, shards[1..], Outcomes(sofar, one.1.value));
    }
  }

  lemma StillInTime(before: Buffer, after: Buffer, pts: u64)
    requires after.lastPlayed == before.lastPlayed
    ensures IsLate(after, pts) <==> IsLate(before, pts)
  {
  }

  /** The datagram that completes the epoch puts it into the buffer. */
  lemma DeliveryKept(code: Code, sent: Sent, s: Receiver, b: u32, i: nat)
    requires code.Lawful() && Sends(sent) && Sound(s) && ExactReceiver(code, sent, s) && b in sent && i < sent[b].Datagrams()
    requires OnlyAtItsTime(sent, b) && !IsLate(s.playout, sent[b].cut.epoch.ptsSamples)
    requires Delivers(code, sent, s, b, SentDatagram(code, sent[b], i))
    ensures Kept(After(code, s, Datagram(SentDatagram(code, sent[b], i))).playout, sent[b].cut.epoch)
  {
    hide PushedAudio, SentDatagram, TakeShards, GenuineFlow, Sound, GenuineShards, Shapes, Kept, IsEpoch, ExactTable, ExactBuffer,
         AllInRange, TableOk, OnlyAtItsTime;
    var datagram := SentDatagram(code, sent[b], i);
    SoundTable(s);
    SoundHasShapes(s);
    PushOk(code, s, datagram);
    OutputGenuine(code, sent, s.flow, b, i);
    var (flow', r) := PushedAudio(code, s.flow, datagram);
    FlowExact(code, sent, s, flow');
    ShapesKept(s, flow');
    TakeShardsDeliver(code, sent, CountDatagram(s).(flow := flow'), b, r.value, ReceiveOutcome([], None));
  }

  lemma ReadKeepsLater(b: Buffer, at: u64, epoch: Epoch)
    requires at < epoch.ptsSamples && Kept(b, epoch)
    ensures Kept(BufferTake(b, at).0, epoch)
  {
    ReadIs(b, at);
    assert Later(BufferTake(b, at).0, epoch.ptsSamples) == Later(b, epoch.ptsSamples);
  }

  lemma ExpiryKeepsLater(b: Buffer, at: u64, epoch: Epoch)
    requires at <= epoch.ptsSamples && Kept(b, epoch)
    ensures Kept(BufferExpire(b, at).0, epoch)
  {
    ExpiryIs(b, at);
    assert Later(BufferExpire(b, at).0, epoch.ptsSamples) == Later(b, epoch.ptsSamples);
  }

  /** Any further call but a read or expiry past its timestamp keeps it there. */
  lemma CallKeepsEpoch(code: Code, s: Receiver, call: Call, epoch: Epoch)
    requires Sound(s) && Walks(s, call) && Kept(s.playout, epoch)
    requires call.TakePlayout? ==> call.pts < epoch.ptsSamples
    requires call.ExpireBefore? ==> call.pts <= epoch.ptsSamples
    ensures Kept(After(code, s, call).playout, epoch)
  {
    hide Sound, PushedAudio, TakeShards, Kept, TableOk, Abandon, DropAll, BufferTake, BufferExpire, Enumerates, AllInRange,
         Shapes;
    SoundTable(s);
    SoundHasShapes(s);
    match call
    case Datagram(bytes) =>
      PushOk(code, s, bytes);
      var (flow', r) := PushedAudio(code, s.flow, bytes);
      ShapesKept(s, flow');
      if r.Success? {
        TakeShardsKeep(CountDatagram(s).(flow := flow'), r.value, ReceiveOutcome([], None), epoch);
      }
    case TakePlayout(at, walk) =>
      WalkIsOpen(s, walk, at);
      AbandonOk(s, walk);
      ReadKeepsLater(s.playout, at, epoch);
    case ExpireBefore(at, walk) =>
      DropAllKeeps(s.(playout := BufferExpire(s.playout, at).0), walk);
      ExpiryKeepsLater(s.playout, at, epoch);
  }

  lemma WalkIsOpen(s: Receiver, walk: seq<u32>, at: u64)
    requires Enumerates(walk, InflightThrough(s, at))
    ensures NoRepeats(walk) && forall b | b in walk :: b in s.inflight
  {
  }

  // ----- whole runs

  /** The receiver after these events. */
  ghost function End(code: Code, sent: Sent, s: Receiver, events: seq<Event>): (s': Receiver)
    requires Sends(sent) && Sound(s) && Runs(code, sent, s, events)
    ensures Sound(s')
    decreases |events|
  {
    if events == [] then s else End(code, sent, Next(code, sent, s, events[0]), events[1..])
  }

  lemma NextExact(code: Code, sent: Sent, s: Receiver, b: u32, others: set<u32>, pts: u64, e: Event)
    requires code.Lawful() && Sends(sent) && Sound(s) && ExactReceiver(code, sent, s) && !IsLate(s.playout, pts)
    requires Allowed(sent, b, others, pts, e) && Walks(s, CallOf(code, sent, e))
    ensures var s' := Next(code, sent, s, e); ExactReceiver(code, sent, s') && !IsLate(s'.playout, pts)
  {
    hide Sound, ExactReceiver, ExactCall, After, SentDatagram, Walks;
    var call := CallOf(code, sent, e);
    if e.Arrives? {
      assert Genuine(code, sent, call.bytes);
    }
    CallExact(code, sent, s, call);
    CallMoves(code, s, call);
  }

  lemma NextKept(code: Code, sent: Sent, s: Receiver, b: u32, others: set<u32>, epoch: Epoch, e: Event)
    requires Sends(sent) && Sound(s) && Kept(s.playout, epoch)
    requires Allowed(sent, b, others, epoch.ptsSamples, e) && Walks(s, CallOf(code, sent, e))
    ensures Kept(Next(code, sent, s, e).playout, epoch)
  {
    hide Sound, After, SentDatagram, Walks, Kept;
    CallKeepsEpoch(code, s, CallOf(code, sent, e), epoch);
  }

  lemma {:induction false} StaysKept(code: Code, sent: Sent, s: Receiver, b: u32, others: set<u32>, epoch: Epoch,
                                     events: seq<Event>)
    requires Sends(sent) && Sound(s) && Kept(s.playout, epoch)
    requires AllAllowed(sent, b, others, epoch.ptsSamples, events) && Runs(code, sent, s, events)
    ensures Kept(End(code, sent, s, events).playout, epoch)
    decreases |events|
  {
    hide Sound, Walks, Kept, CallOf, Next;
    if events != [] {
      assert Allowed(sent, b, others, epoch.ptsSamples, events[0]);
      NextKept(code, sent, s, b, others, epoch, events[0]);
      StaysKept(code, sent, Next(code, sent, s, events[0]), b, others, epoch, events[1..]);
    }
  }

  lemma {:induction false} EmergedIsKept(code: Code, sent: Sent, s: Receiver, b: u32, others: set<u32>, events: seq<Event>)
    requires code.Lawful() && Sends(sent) && Sound(s) && ExactReceiver(code, sent, s) && b in sent && OnlyAtItsTime(sent, b)
    requires !IsLate(s.playout, sent[b].cut.epoch.ptsSamples)
    requires AllAllowed(sent, b, others, sent[b].cut.epoch.ptsSamples, events) && Runs(code, sent, s, events)
    requires Emerges(code, sent, s, b, events)
    ensures Kept(End(code, sent, s, events).playout, sent[b].cut.epoch)
    decreases |events|
  {
    hide Sound, Walks, Kept, After, ExactReceiver, Delivers, OnlyAtItsTime, SentDatagram, SentBlock.Datagrams;
    var e, epoch := events[0], sent[b].cut.epoch;
    assert Allowed(sent, b, others, epoch.ptsSamples, e);
    var s' := Next(code, sent, s, e);
    NextExact(code, sent, s, b, others, epoch.ptsSamples, e);
    if Emerges(code, sent, s', b, events[1..]) {
      EmergedIsKept(code, sent, s', b, others, events[1..]);
    } else {
      DeliveryKept(code, sent, s, b, e.index);
      StaysKept(code, sent, s', b, others, epoch, events[1..]);
    }
  }

  lemma LaterFits(b: Buffer, pts: u64)
    requires BufferOk(b) && pts in b.epochs
    ensures |Later(b, pts)| < b.max
  {
    assert |b.epochs.Keys| == |b.epochs|;
    assert pts !in Later(b, pts);
    Larger(Later(b, pts) + {pts}, b.epochs.Keys);
  }

  /** The read of a kept epoch's timestamp finds it exactly while the buffer is not full of later ones. */
  lemma KeptIsRead(s: Receiver, epoch: Epoch, walk: seq<u32>)
    requires Sound(s) && Kept(s.playout, epoch) && Enumerates(walk, InflightThrough(s, epoch.ptsSamples))
    ensures var read := TakeReceiver(s, epoch.ptsSamples, walk).1;
            && (read.Exact? <==> |Later(s.playout, epoch.ptsSamples)| < s.playout.max)
            && (read.Exact? ==> IsEpoch(epoch, read.epoch))
  {
    hide TableOk, Consistent, Balanced, Counted, Abandon, IsEpoch, Enumerates, BufferTake, Later;
    WalkIsOpen(s, walk, epoch.ptsSamples);
    AbandonOk(s, walk);
    ReadIs(s.playout, epoch.ptsSamples);
    if epoch.ptsSamples in s.playout.epochs {
      LaterFits(s.playout, epoch.ptsSamples);
    }
  }

  /** Any run of other epochs, then events among which the epoch of block `b` completes, then a read at its time. */
  ghost predicate ReadAfter(code: Code, sent: Sent, s: Receiver, b: u32, events: seq<Event>, walk: seq<u32>, end: Receiver)
    requires Sends(sent) && Sound(s) && b in sent
  {
    && OnlyAtItsTime(sent, b) && Runs(code, sent, s, events) && end == End(code, sent, s, events)
    && Enumerates(walk, InflightThrough(end, sent[b].cut.epoch.ptsSamples))
  }

  /**
   Exact in the end: an epoch that completes among these events is what the read of its timestamp returns
   afterwards, exactly as it was sent, if and only if fewer later timestamps are buffered by then than the
   buffer holds.
   */
  lemma EpochIsPlayed(code: Code, sent: Sent, maxInflight: nat, maxBuffered: nat, calls: seq<Call>, b: u32,
                      others: set<u32>, events: seq<Event>, walk: seq<u32>, end: Receiver)
    requires code.Lawful() && Sends(sent) && StillToCome(code, sent, maxInflight, maxBuffered, calls, b)
    requires ThenAmong(code, sent, Replay(code, maxInflight, maxBuffered, calls), b, others, maxInflight, events)
    requires Emerges(code, sent, Replay(code, maxInflight, maxBuffered, calls), b, events)
    requires ReadAfter(code, sent, Replay(code, maxInflight, maxBuffered, calls), b, events, walk, end)
    ensures var epoch := sent[b].cut.epoch;
            var read := TakeReceiver(end, epoch.ptsSamples, walk).1;
            && (read.Exact? <==> |Later(end.playout, epoch.ptsSamples)| < end.playout.max)
            && (read.Exact? ==> IsEpoch(epoch, read.epoch))
  {
    hide Sound, ExactReceiver, Replay, WithoutBlock, Legal, Emerges, Runs, AllAllowed, Kept, End, TakeReceiver, Later, IsEpoch,
         OnlyAtItsTime, UnknownTo;
    var s := Replay(code, maxInflight, maxBuffered, calls);
    RunUnseen(code, sent, maxInflight, maxBuffered, calls, b, sent[b].cut.epoch.ptsSamples);
    EmergedIsKept(code, sent, s, b, others, events);
    KeptIsRead(end, sent[b].cut.epoch, walk);
  }

  /** From the source datagrams to the speaker: with all of them arrived, in time, the epoch is played as it was sent. */
  lemma SourcesArePlayed(code: Code, sent: Sent, maxInflight: nat, maxBuffered: nat, calls: seq<Call>, b: u32,
                         others: set<u32>, events: seq<Event>, walk: seq<u32>, end: Receiver)
    requires code.Lawful() && Sends(sent) && StillToCome(code, sent, maxInflight, maxBuffered, calls, b)
    requires ThenAmong(code, sent, Replay(code, maxInflight, maxBuffered, calls), b, others, maxInflight, events)
    requires forall x: nat | x < sent[b].cut.Shards() :: Arrives(b, x) in events
    requires ReadAfter(code, sent, Replay(code, maxInflight, maxBuffered, calls), b, events, walk, end)
    requires |Later(end.playout, sent[b].cut.epoch.ptsSamples)| < end.playout.max
    ensures var read := TakeReceiver(end, sent[b].cut.epoch.ptsSamples, walk).1;
            read.Exact? && IsEpoch(sent[b].cut.epoch, read.epoch)
  {
    hide StillToCome, ThenAmong, Emerges, Replay, ReadAfter, TakeReceiver, Later, IsEpoch, Cut.Shards, Sound;
    EpochCompletesAmongOthers(code, sent, maxInflight, maxBuffered, calls, b, others, events);
    EpochIsPlayed(code, sent, maxInflight, maxBuffered, calls, b, others, events, walk, end);
  }
}
