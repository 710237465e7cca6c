/**
 What the receiver keeps over every run of pushes, reads and expiries, error returns included: its
 tables stay consistent and bounded, and every epoch it ever opened is accounted for exactly once.
 */
module SessionRuns {
  import opened Assembly
  import opened AudioDecoderRuns
  import opened AudioDecoding
  import opened ByteCodec
  import opened ClosedWindows
  import opened Collections
  import opened MachineInts
  import opened Playout
  import opened RaptorQ
  import opened Session
  import opened ShardHeaders
  import opened Wrappers

  // ----- the playout buffer

  /** Bounded, keyed by its own timestamps, all after the last one played. */
  ghost predicate BufferOk(b: Buffer) {
    && 0 < b.max && |b.epochs| <= b.max
    && forall k | k in b.epochs :: b.epochs[k].ptsSamples == k && !IsLate(b, k)
  }

  lemma InsertOk(b: Buffer, epoch: DecodedEpoch)
    requires BufferOk(b)
    ensures var (b', r) := BufferInsert(b, epoch);
            && BufferOk(b') && b'.lastPlayed == b.lastPlayed && b'.max == b.max
            && |b'.epochs| + (match r case Inserted => 0 case DuplicateOrLate => 1 case EvictedStale(n) => n) == |b.epochs| + 1
            && forall k | k in b'.epochs :: (k in b.epochs && b'.epochs[k] == b.epochs[k]) || b'.epochs[k] == epoch
  {
    hide WithoutEarliest;
    if !IsLate(b, epoch.ptsSamples) && epoch.ptsSamples !in b.epochs {
      var grown := b.epochs[epoch.ptsSamples := epoch];
      assert grown.Keys == b.epochs.Keys + {epoch.ptsSamples};
      if |grown| > b.max {
        WithoutEarliestIs(grown, |grown| - b.max);
      }
    }
  }

  lemma ExpireOk(b: Buffer, pts: u64)
    requires BufferOk(b)
    ensures var (b', count) := BufferExpire(b, pts);
            && BufferOk(b') && b'.lastPlayed == b.lastPlayed && |b'.epochs| + count == |b.epochs|
            && forall k | k in b'.epochs :: k in b.epochs && b'.epochs[k] == b.epochs[k]
  {
    FromAndBefore(b.epochs, pts);
  }

  lemma TakeOk(b: Buffer, pts: u64)
    requires BufferOk(b)
    ensures var (b', read) := BufferTake(b, pts);
            && BufferOk(b') && b'.lastPlayed == Some(pts)
            && |b'.epochs| + |Before(b.epochs, pts)| + (if read.Exact? then 1 else 0) == |b.epochs|
            && (read.Exact? ==> read.epoch.ptsSamples == pts && pts in b.epochs && read.epoch == b.epochs[pts])
            && forall k | k in b'.epochs :: k in b.epochs && b'.epochs[k] == b.epochs[k]
  {
    FromAndBefore(b.epochs, pts);
    var kept := From(b.epochs, pts);
    if pts in kept {
      RemoveKey(kept, pts);
    } else {
      assert kept - {pts} == kept;
    }
  }

  // ----- the table of assemblies

  ghost predicate Pending(s: Receiver, b: u32)
    requires b in s.inflight
  {
    var a := s.inflight[b];
    a.blockId == b && EpochShape(a) && !AllFilled(a.groups) && !IsLate(s.playout, a.header.ptsSamples)
  }

  /** Queue and window agree with the table; nothing in it is complete, late or ignored. */
  ghost predicate TableOk(s: Receiver) {
    && 0 < s.maxInflight && 0 < s.maxIgnored
    && Enumerates(s.order, s.inflight.Keys)
    && Ok(s.ignored, s.maxIgnored)
    && s.inflight.Keys !! s.ignored.members
    && forall b | b in s.inflight :: Pending(s, b)
  }

  // ----- the books

  /** What a saturating counter shows for `n`. */
  function Shown(n: nat): u64 {
    Min(n, U64_MAX)
  }

  /** Every epoch ever opened is in exactly one of these places. */
  ghost predicate Balanced(s: Receiver) {
    s.ledger.started == |s.inflight| + |s.playout.epochs| + s.ledger.played + s.ledger.duplicateOrLate
                        + s.ledger.incomplete + s.ledger.stale + s.ledger.skipped
  }

  ghost predicate Counted(s: Receiver) {
    && s.stats.exactPlayed == Shown(s.ledger.played)
    && s.stats.duplicateOrLate == Shown(s.ledger.duplicateOrLate)
    && s.stats.incompleteDropped == Shown(s.ledger.incomplete)
    && s.stats.staleDropped == Shown(s.ledger.stale)
  }

  ghost predicate Sound(s: Receiver) {
    && TableOk(s) && |s.inflight| <= s.maxInflight
    && BufferOk(s.playout) && Balanced(s) && Counted(s) && Consistent(s.flow)
  }

  lemma NewSound(maxInflight: nat, maxBuffered: nat)
    ensures Sound(NewReceiver(maxInflight, maxBuffered))
  {
    NewIsConsistent(128, 128);
  }

  lemma SoundHasShapes(s: Receiver)
    requires TableOk(s)
    ensures Shapes(s)
  {
    forall b | b in s.inflight ensures EpochShape(s.inflight[b]) {
      assert Pending(s, b);
    }
  }

  lemma ShownAdds(n: nat, k: nat)
    ensures SatAdd(Shown(n), k) == Shown(n + k)
  {
  }

  /** Everything but the table, the queue and the window of ignored blocks. */
  ghost predicate SameButTable(s: Receiver, s': Receiver) {
    s' == s.(inflight := s'.inflight, order := s'.order, ignored := s'.ignored)
  }

  /** Dropping an open assembly moves it to the ignored blocks. */
  lemma DropOk(s: Receiver, b: u32)
    requires TableOk(s) && b in s.inflight
    ensures var s' := DropInflight(s, b);
            && TableOk(s') && SameButTable(s, s')
            && s'.inflight == s.inflight - {b} && |s'.inflight| == |s.inflight| - 1
  {
    hide Remembered, EpochShape, Ok;
    EnumeratesWithout(s.order, s.inflight.Keys, b);
    RememberedOk(s.ignored, b, s.maxIgnored);
    var s' := DropInflight(s, b);
    assert s'.inflight.Keys == s.inflight.Keys - {b};
    forall x | x in s'.inflight ensures Pending(s', x) {
      assert Pending(s, x);
    }
  }

  lemma WithoutFirst(order: seq<u32>, members: set<u32>)
    requires Enumerates(order, members) && order != []
    ensures Without(order, order[0]) == order[1..]
  {
    assert order[0] !in order[1..];
    WithoutAbsent(order[1..], order[0]);
  }

  /** Popping the oldest is dropping it. */
  lemma PopIsDrop(s: Receiver)
    requires TableOk(s) && s.order != []
    ensures s.order[0] in s.inflight
    ensures RememberIgnored(CountIncomplete(s.(order := s.order[1..], inflight := s.inflight - {s.order[0]})), s.order[0])
            == CountIncomplete(DropInflight(s, s.order[0]))
  {
    hide Remembered, Pending, Ok, Enumerates;
    EnumeratesTail(s.order, s.inflight.Keys);
    WithoutFirst(s.order, s.inflight.Keys);
  }

  lemma CountIncompleteOk(s: Receiver)
    requires TableOk(s)
    ensures TableOk(CountIncomplete(s))
    ensures Counted(s) ==> Counted(CountIncomplete(s))
  {
    hide EpochShape, Ok;
    ShownAdds(s.ledger.incomplete, 1);
    forall x | x in s.inflight ensures Pending(CountIncomplete(s), x) {
      assert Pending(s, x);
    }
  }

  /** Dropping an assembly as incomplete keeps the books. */
  lemma DropIncompleteOk(s: Receiver, b: u32)
    requires Sound(s) && b in s.inflight
    ensures var s' := CountIncomplete(DropInflight(s, b));
            && Sound(s') && s'.inflight == s.inflight - {b} && |s'.inflight| == |s.inflight| - 1
            && s'.playout == s.playout && s'.flow == s.flow && s'.maxInflight == s.maxInflight
  {
    hide DropInflight, TableOk, BufferOk, Consistent;
    DropOk(s, b);
    CountIncompleteOk(DropInflight(s, b));
  }

  lemma EnsureSlotOk(s: Receiver)
    requires Sound(s)
    ensures var s' := EnsureSlot(s);
            && Sound(s') && |s'.inflight| < s'.maxInflight
            && s'.playout == s.playout && s'.flow == s.flow
            && s'.inflight.Keys <= s.inflight.Keys
            && (forall x | x in s'.inflight :: s'.inflight[x] == s.inflight[x])
            && (forall x | x in s'.ignored.members :: x in s.ignored.members || x in s.inflight)
    decreases |s.inflight|
  {
    hide DropInflight, BufferOk, Consistent, Pending, Balanced, Counted;
    EnumerationSize(s.order, s.inflight.Keys);
    if |s.inflight| >= s.maxInflight {
      var s' := CountIncomplete(DropInflight(s, s.order[0]));
      PopIsDrop(s);
      DropIncompleteOk(s, s.order[0]);
      SlotRound(s);
      IgnoredGrows(s, s.order[0]);
      EnsureSlotOk(s');
    } else {
      SlotDone(s);
    }
  }

  lemma IgnoredGrows(s: Receiver, b: u32)
    requires TableOk(s) && b in s.inflight
    ensures forall x | x in DropInflight(s, b).ignored.members :: x in s.ignored.members || x in s.inflight
  {
    hide Remembered, Pending;
    RememberedOk(s.ignored, b, s.maxIgnored);
  }

  // ----- shards

  lemma CountShardOk(s: Receiver, shard: Shard)
    requires Sound(s)
    ensures Sound(CountShard(s, shard))
  {
    hide Consistent, BufferOk, EpochShape, Ok;
    forall x | x in s.inflight ensures Pending(CountShard(s, shard), x) {
      assert Pending(s, x);
    }
  }

  lemma NewEpochPending(b: u32, shard: Shard)
    requires ShardInRange(shard)
    ensures var a := NewEpoch(b, shard.header);
            EpochShape(a) && !AllFilled(a.groups) && a.header == shard.header && a.blockId == b
  {
    assert NewEpoch(b, shard.header).groups[0].None?;
  }

  lemma OpenOk(s: Receiver, shard: Shard)
    requires Sound(s) && shard.blockId !in s.inflight && |s.inflight| < s.maxInflight
    requires shard.blockId !in s.ignored.members && !IsLate(s.playout, shard.header.ptsSamples) && ShardInRange(shard)
    ensures Sound(OpenAssembly(s, shard))
  {
    hide Consistent, BufferOk, EpochShape, Ok, NewEpoch, AllFilled;
    var b := shard.blockId;
    var s' := OpenAssembly(s, shard);
    EnumeratesAppend(s.order, s.inflight.Keys, b);
    NewEpochPending(b, shard);
    assert s'.inflight.Keys == s.inflight.Keys + {b};
    forall x | x in s'.inflight ensures Pending(s', x) {
      if x != b {
        assert Pending(s, x);
      }
    }
  }

  /** Every outcome of `push` on an assembly that stays incomplete. */
  lemma ReplaceOk(s: Receiver, b: u32, a: EpochAssembly)
    requires Sound(s) && b in s.inflight
    requires EpochShape(a) && a.header == s.inflight[b].header && a.blockId == s.inflight[b].blockId && !AllFilled(a.groups)
    ensures Sound(s.(inflight := s.inflight[b := a]))
  {
    hide Consistent, BufferOk, EpochShape, Ok, AllFilled, Enumerates;
    var s' := s.(inflight := s.inflight[b := a]);
    assert s'.inflight.Keys == s.inflight.Keys;
    forall x | x in s'.inflight ensures Pending(s', x) {
      assert Pending(s, x);
    }
  }

  /** The receiver is sound but for one assembly that has just become complete. */
  ghost predicate Completing(s: Receiver, b: u32) {
    && b in s.inflight && AllFilled(s.inflight[b].groups)
    && |s.inflight| <= s.maxInflight
    && TableOk(s.(inflight := s.inflight - {b}, order := Without(s.order, b)))
    && BufferOk(s.playout) && Balanced(s) && Counted(s) && Consistent(s.flow)
  }

  lemma ReplaceCompleting(s: Receiver, b: u32, a: EpochAssembly)
    requires Sound(s) && b in s.inflight && AllFilled(a.groups)
    ensures Completing(s.(inflight := s.inflight[b := a]), b)
  {
    hide Consistent, BufferOk, EpochShape, Ok;
    var s' := s.(inflight := s.inflight[b := a]);
    var t := s'.(inflight := s'.inflight - {b}, order := Without(s.order, b));
    EnumeratesWithout(s.order, s.inflight.Keys, b);
    assert t.inflight == s.inflight - {b};
    assert t.inflight.Keys == s.inflight.Keys - {b};
    assert s'.inflight.Keys == s.inflight.Keys;
    forall x | x in t.inflight ensures Pending(t, x) {
      assert Pending(s, x);
    }
  }

  lemma CompleteOk(s: Receiver, b: u32)
    requires Completing(s, b)
    ensures Sound(Complete(s, b).0)
    ensures Complete(s, b).0.flow == s.flow && Complete(s, b).0.playout.lastPlayed == s.playout.lastPlayed
  {
    hide Consistent, BufferOk, EpochShape, Ok, BufferInsert, AllFilled, FinishedEpoch;
    var epoch := FinishedEpoch(s.inflight[b]);
    InsertOk(s.playout, epoch);
    var t := s.(inflight := s.inflight - {b}, order := Without(s.order, b));
    var s' := Complete(s, b).0;
    assert t.inflight.Keys == s.inflight.Keys - {b};
    ShownAdds(s.ledger.duplicateOrLate, 1);
    var inserted := BufferInsert(s.playout, epoch).1;
    if inserted.EvictedStale? {
      ShownAdds(s.ledger.stale, inserted.count);
    }
    forall x | x in s'.inflight ensures Pending(s', x) {
      assert Pending(t, x);
    }
  }

  lemma AssembleOk(s: Receiver, shard: Shard)
    requires Sound(s) && shard.blockId in s.inflight && ShardInRange(shard) && EpochShape(s.inflight[shard.blockId])
    ensures Sound(Assemble(s, shard).0)
    ensures Assemble(s, shard).0.flow == s.flow && Assemble(s, shard).0.playout.lastPlayed == s.playout.lastPlayed
  {
    hide Sound, EpochPush, Complete, AllFilled, Completing, EpochShape;
    var b := shard.blockId;
    var pushed := EpochPush(s.inflight[b], shard);
    var s' := s.(inflight := s.inflight[b := pushed.0]);
    EpochPushKeepsShape(s.inflight[b], shard);
    if AllFilled(pushed.0.groups) {
      ReplaceCompleting(s, b, pushed.0);
      PushFailsIncomplete(s, shard);
      var counted := if pushed.1.value.None? then s'
                     else s'.(stats := s'.stats.(groupsCompleted := SatAdd(s'.stats.groupsCompleted, 1)));
      CompletingCounted(s', b, counted.stats.groupsCompleted);
      CompleteOk(counted, b);
    } else {
      ReplaceOk(s, b, pushed.0);
      SoundCounted(s', SatAdd(s'.stats.groupsCompleted, 1));
    }
  }

  /** A refused shard never completes an epoch. */
  lemma PushFailsIncomplete(s: Receiver, shard: Shard)
    requires Sound(s) && shard.blockId in s.inflight && ShardInRange(shard) && EpochShape(s.inflight[shard.blockId])
    requires AllFilled(EpochPush(s.inflight[shard.blockId], shard).0.groups)
    ensures EpochPush(s.inflight[shard.blockId], shard).1.Success?
  {
    hide GroupPush, Consistent, BufferOk;
    assert Pending(s, shard.blockId);
  }

  lemma SoundCounted(s: Receiver, groups: u64)
    requires Sound(s)
    ensures Sound(s.(stats := s.stats.(groupsCompleted := groups)))
  {
    hide Consistent, BufferOk, EpochShape, Ok, AllFilled;
    forall x | x in s.inflight ensures Pending(s.(stats := s.stats.(groupsCompleted := groups)), x) {
      assert Pending(s, x);
    }
  }

  lemma CompletingCounted(s: Receiver, b: u32, groups: u64)
    requires Completing(s, b)
    ensures Completing(s.(stats := s.stats.(groupsCompleted := groups)), b)
  {
    hide Consistent, BufferOk, EpochShape, Ok, AllFilled, Enumerates;
    var t := s.(inflight := s.inflight - {b}, order := Without(s.order, b));
    var t' := t.(stats := s.stats.(groupsCompleted := groups));
    forall x | x in t'.inflight ensures Pending(t', x) {
      assert Pending(t, x);
    }
  }

  lemma TakeShardOk(s: Receiver, shard: Shard)
    requires Sound(s) && ShardInRange(shard) && Shapes(s)
    ensures Sound(TakeShard(s, shard).0) && TakeShard(s, shard).0.flow == s.flow
    ensures TakeShard(s, shard).0.playout.lastPlayed == s.playout.lastPlayed
  {
    hide Sound, Assemble, EnsureSlot, EpochShape;
    var counted := CountShard(s, shard);
    CountShardOk(s, shard);
    if !(shard.blockId in s.ignored.members || IsLate(s.playout, shard.header.ptsSamples)) {
      SlotKeepsShapes(counted);
      NewEpochShape(shard.blockId, shard.header);
      if shard.blockId !in s.inflight {
        EnsureSlotOk(counted);
        OpenOk(EnsureSlot(counted), shard);
      }
      var ready := OpenAssembly(if shard.blockId in s.inflight then counted else EnsureSlot(counted), shard);
      AssembleOk(ready, shard);
    }
  }

  lemma {:induction false} TakeShardsOk(s: Receiver, shards: seq<Shard>, sofar: ReceiveOutcome)
    requires Sound(s) && AllInRange(shards) && Shapes(s)
    ensures Sound(TakeShards(s, shards, sofar).0)
    ensures TakeShards(s, shards, sofar).0.playout.lastPlayed == s.playout.lastPlayed
    decreases |shards|
  {
    hide Sound, TakeShard, Shapes;
    if shards != [] {
      TakeShardOk(s, shards[0]);
      TakeShardKeepsShapes(s, shards[0]);
      var one := TakeShard(s, shards[0]);
      if one.1.Success? {
        TakeShardsOk(one.0, shards[1..], ReceiveOutcome(sofar.groups + one.1.value.groups,
                     if one.1.value.epoch.Some? then one.1.value.epoch else sofar.epoch));
      }
    }
  }

  lemma FlowCounted(s: Receiver, flow: Flow)
    requires Sound(s) && Consistent(flow)
    ensures Sound(CountDatagram(s).(flow := flow))
  {
    hide Consistent, BufferOk, EpochShape, Ok, AllFilled;
    forall x | x in s.inflight ensures Pending(CountDatagram(s).(flow := flow), x) {
      assert Pending(s, x);
    }
  }

  /** Any datagram whatever, accepted or refused. */
  lemma PushOk(code: Code, s: Receiver, datagram: Bytes)
    requires Sound(s) && Shapes(s)
    ensures PushedAudio(code, s.flow, datagram).1.Success? ==> AllInRange(PushedAudio(code, s.flow, datagram).1.value)
    ensures Sound(PushReceiver(code, s, datagram).0)
    ensures PushReceiver(code, s, datagram).0.playout.lastPlayed == s.playout.lastPlayed
  {
    hide PushedAudio, TakeShards, TableOk, BufferOk, Balanced, Counted, Consistent;
    PushedInRange(code, s.flow, datagram);
    FlowCounted(s, PushedAudio(code, s.flow, datagram).0);
    var s' := CountDatagram(s).(flow := PushedAudio(code, s.flow, datagram).0);
    if PushedAudio(code, s.flow, datagram).1.Success? {
      TakeShardsOk(s', PushedAudio(code, s.flow, datagram).1.value, ReceiveOutcome([], None));
    }
  }

  // ----- reads and expiries

  lemma {:induction false} AbandonOk(s: Receiver, blocks: seq<u32>)
    requires Sound(s) && NoRepeats(blocks) && forall b | b in blocks :: b in s.inflight
    ensures var s' := Abandon(s, blocks);
            && Sound(s') && s'.playout == s.playout && s'.flow == s.flow
            && (forall b :: b in s'.inflight <==> b in s.inflight && b !in blocks)
            && forall b | b in s'.inflight :: s'.inflight[b] == s.inflight[b]
    decreases |blocks|
  {
    hide Sound, DropInflight, CountIncomplete;
    if blocks != [] {
      DropIncompleteOk(s, blocks[0]);
      assert blocks == [blocks[0]] + blocks[1..];
      AbandonOk(CountIncomplete(DropInflight(s, blocks[0])), blocks[1..]);
    }
  }

  /** With no assembly left at or before `pts`, the buffer may move on to it. */
  lemma AdvancePlayout(s: Receiver, pts: u64)
    requires Sound(s) && forall b | b in s.inflight :: pts < s.inflight[b].header.ptsSamples
    ensures Sound(TakeReceiver(s, pts, []).0)
  {
    hide Consistent, EpochShape, Ok, AllFilled, BufferTake, Enumerates;
    TakeOk(s.playout, pts);
    var s' := TakeReceiver(s, pts, []).0;
    ShownAdds(s.ledger.played, 1);
    forall x | x in s'.inflight ensures Pending(s', x) {
      assert Pending(s, x);
    }
  }

  lemma TakeReceiverOk(s: Receiver, pts: u64, blocks: seq<u32>)
    requires Sound(s) && Enumerates(blocks, InflightThrough(s, pts))
    ensures Sound(TakeReceiver(s, pts, blocks).0)
  {
    hide Sound, Abandon;
    AbandonOk(s, blocks);
    var t := Abandon(s, blocks);
    forall b | b in t.inflight ensures pts < t.inflight[b].header.ptsSamples {
      assert b !in InflightThrough(s, pts);
    }
    AdvancePlayout(t, pts);
    NothingToAbandon(t);
    assert TakeReceiver(s, pts, blocks) == TakeReceiver(t, pts, []);
  }

  lemma NothingToAbandon(s: Receiver)
    ensures Abandon(s, []) == s
  {
  }

  /** Sound, but for `count` assemblies dropped and not yet in the books. */
  ghost predicate Owing(s: Receiver, count: nat) {
    && TableOk(s) && |s.inflight| <= s.maxInflight && BufferOk(s.playout) && Counted(s) && Consistent(s.flow)
    && s.ledger.started == |s.inflight| + |s.playout.epochs| + s.ledger.played + s.ledger.duplicateOrLate
                           + s.ledger.incomplete + s.ledger.stale + s.ledger.skipped + count
  }

  lemma {:induction false} DropAllOk(s: Receiver, blocks: seq<u32>, count: nat)
    requires Owing(s, count) && NoRepeats(blocks) && forall b | b in blocks :: b in s.inflight
    ensures Owing(DropAll(s, blocks), count + |blocks|)
    ensures SameButTable(s, DropAll(s, blocks))
    decreases |blocks|
  {
    hide DropInflight, BufferOk, Consistent, TableOk;
    if blocks != [] {
      DropOk(s, blocks[0]);
      assert blocks == [blocks[0]] + blocks[1..];
      DropAllOk(DropInflight(s, blocks[0]), blocks[1..], count + 1);
    }
  }

  lemma SettleOk(s: Receiver, count: nat)
    requires Owing(s, count)
    ensures Sound(s.(stats := s.stats.(staleDropped := SatAdd(s.stats.staleDropped, count)),
                     ledger := s.ledger.(stale := s.ledger.stale + count)))
  {
    hide Consistent, BufferOk, EpochShape, Ok, AllFilled, Enumerates;
    ShownAdds(s.ledger.stale, count);
    var s' := s.(stats := s.stats.(staleDropped := SatAdd(s.stats.staleDropped, count)),
                 ledger := s.ledger.(stale := s.ledger.stale + count));
    forall x | x in s'.inflight ensures Pending(s', x) {
      assert Pending(s, x);
    }
  }

  lemma PlayoutExpired(s: Receiver, pts: u64)
    requires Sound(s)
    ensures var (playout', count) := BufferExpire(s.playout, pts);
            Owing(s.(playout := playout'), count)
  {
    hide Consistent, EpochShape, Ok, AllFilled, Enumerates, BufferExpire;
    ExpireOk(s.playout, pts);
    var s' := s.(playout := BufferExpire(s.playout, pts).0);
    forall x | x in s'.inflight ensures Pending(s', x) {
      assert Pending(s, x);
    }
  }

  lemma ExpireReceiverOk(s: Receiver, pts: u64, blocks: seq<u32>)
    requires Sound(s) && Enumerates(blocks, InflightBefore(s, pts))
    ensures Sound(ExpireReceiver(s, pts, blocks).0)
  {
    hide Sound, Owing, DropAll, BufferExpire;
    PlayoutExpired(s, pts);
    var t := s.(playout := BufferExpire(s.playout, pts).0);
    DropAllOk(t, blocks, BufferExpire(s.playout, pts).1);
    SettleOk(DropAll(t, blocks), BufferExpire(s.playout, pts).1 + |blocks|);
  }

  // ----- whole runs

  /** A call on the receiver; reads and expiries name the order in which the table is walked. */
  datatype Call = Datagram(bytes: Bytes) | TakePlayout(pts: u64, walk: seq<u32>) | ExpireBefore(pts: u64, walk: seq<u32>)

  /** The walk lists exactly the assemblies the call has to drop. */
  ghost predicate Walks(s: Receiver, call: Call) {
    match call
    case Datagram(_) => true
    case TakePlayout(pts, walk) => Enumerates(walk, InflightThrough(s, pts))
    case ExpireBefore(pts, walk) => Enumerates(walk, InflightBefore(s, pts))
  }

  ghost function After(code: Code, s: Receiver, call: Call): Receiver
    requires Sound(s)
  {
    SoundHasShapes(s);
    match call
    case Datagram(bytes) => PushOk(code, s, bytes); PushReceiver(code, s, bytes).0
    case TakePlayout(pts, walk) => TakeReceiver(s, pts, walk).0
    case ExpireBefore(pts, walk) => ExpireReceiver(s, pts, walk).0
  }

  lemma CallSound(code: Code, s: Receiver, call: Call)
    requires Sound(s) && Walks(s, call)
    ensures Sound(After(code, s, call))
  {
    hide Sound, PushReceiver, TakeReceiver, ExpireReceiver, Enumerates;
    SoundTable(s);
    SoundHasShapes(s);
    match call
    case Datagram(bytes) => PushOk(code, s, bytes);
    case TakePlayout(pts, walk) => TakeReceiverOk(s, pts, walk);
    case ExpireBefore(pts, walk) => ExpireReceiverOk(s, pts, walk);
  }

  lemma SoundTable(s: Receiver)
    requires Sound(s)
    ensures TableOk(s)
  {
  }

  /** Every walk in the sequence of calls fits the state it meets. */
  ghost predicate Legal(code: Code, maxInflight: nat, maxBuffered: nat, calls: seq<Call>)
    decreases |calls|, 0
  {
    calls != [] ==>
      var before := calls[..|calls| - 1];
      Legal(code, maxInflight, maxBuffered, before)
      && Walks(Replay(code, maxInflight, maxBuffered, before), calls[|calls| - 1])
  }

  /**
   The receiver after any sequence of pushes of arbitrary bytes, reads and expiries. It is sound:
   queues enumerate their tables, all bounds hold, nothing in flight or buffered is at or before the
   last timestamp played, every epoch ever opened is in exactly one place, and the counters show
   the books.
   */
  ghost function Replay(code: Code, maxInflight: nat, maxBuffered: nat, calls: seq<Call>): (s: Receiver)
    requires Legal(code, maxInflight, maxBuffered, calls)
    ensures Sound(s)
    decreases |calls|, 1
  {
    if calls == [] then
      NewSound(maxInflight, maxBuffered);
      NewReceiver(maxInflight, maxBuffered)
    else
      var s := Replay(code, maxInflight, maxBuffered, calls[..|calls| - 1]);
      CallSound(code, s, calls[|calls| - 1]);
      After(code, s, calls[|calls| - 1])
  }

  /** What soundness says, spelled out for the state after any run. */
  lemma RunSound(code: Code, maxInflight: nat, maxBuffered: nat, calls: seq<Call>)
    requires Legal(code, maxInflight, maxBuffered, calls)
    ensures var s := Replay(code, maxInflight, maxBuffered, calls);
            && Enumerates(s.order, s.inflight.Keys) && |s.inflight| <= s.maxInflight
            && Enumerates(s.ignored.order, s.ignored.members) && |s.ignored.order| <= s.maxIgnored
            && s.inflight.Keys !! s.ignored.members
            && |s.playout.epochs| <= s.playout.max
            && (forall k | k in s.playout.epochs :: s.playout.epochs[k].ptsSamples == k && !IsLate(s.playout, k))
            && (forall b | b in s.inflight :: !IsLate(s.playout, s.inflight[b].header.ptsSamples))
            && s.ledger.started == |s.inflight| + |s.playout.epochs| + s.ledger.played + s.ledger.duplicateOrLate
                                   + s.ledger.incomplete + s.ledger.stale + s.ledger.skipped
            && Counted(s)
  {
    hide Replay, Consistent, Counted, EpochShape, AllFilled, Enumerates;
    var s := Replay(code, maxInflight, maxBuffered, calls);
    forall b | b in s.inflight ensures !IsLate(s.playout, s.inflight[b].header.ptsSamples) {
      assert Pending(s, b);
    }
  }

  // ----- playout order

  /** The timestamp of the last read. */
  function LastRead(calls: seq<Call>): Option<u64> {
    if calls == [] then None
    else
      var last := calls[|calls| - 1];
      if last.TakePlayout? then Some(last.pts) else LastRead(calls[..|calls| - 1])
  }

  lemma {:induction false} LastReadAfter(calls: seq<Call>, i: nat)
    requires i < |calls| && calls[i].TakePlayout?
    ensures exists k :: i <= k < |calls| && calls[k].TakePlayout? && LastRead(calls) == Some(calls[k].pts)
    decreases |calls|
  {
    var n := |calls| - 1;
    if !calls[n].TakePlayout? {
      LastReadAfter(calls[..n], i);
      var k :| i <= k < n && calls[..n][k].TakePlayout? && LastRead(calls[..n]) == Some(calls[..n][k].pts);
      assert calls[k] == calls[..n][k];
    }
  }

  lemma CallMoves(code: Code, s: Receiver, call: Call)
    requires Sound(s) && Walks(s, call)
    ensures After(code, s, call).playout.lastPlayed == if call.TakePlayout? then Some(call.pts) else s.playout.lastPlayed
  {
    hide PushReceiver, TakeShards, PushedAudio, TableOk, Consistent, Balanced, Counted, Abandon, DropAll, AllInRange;
    SoundHasShapes(s);
    match call
    case Datagram(bytes) => PushOk(code, s, bytes);
    case TakePlayout(pts, walk) =>
    case ExpireBefore(pts, walk) =>
      PlayoutExpired(s, pts);
      DropAllOk(s.(playout := BufferExpire(s.playout, pts).0), walk, BufferExpire(s.playout, pts).1);
  }

  lemma {:induction false} LastPlayedIsRead(code: Code, maxInflight: nat, maxBuffered: nat, calls: seq<Call>)
    requires Legal(code, maxInflight, maxBuffered, calls)
    ensures Replay(code, maxInflight, maxBuffered, calls).playout.lastPlayed == LastRead(calls)
    decreases |calls|
  {
    hide Sound, Walks, After;
    if calls != [] {
      var before := calls[..|calls| - 1];
      LastPlayedIsRead(code, maxInflight, maxBuffered, before);
      CallMoves(code, Replay(code, maxInflight, maxBuffered, before), calls[|calls| - 1]);
    }
  }

  /** A read that finds an epoch is not late. */
  lemma ExactNotLate(s: Receiver, pts: u64, walk: seq<u32>)
    requires Sound(s) && Enumerates(walk, InflightThrough(s, pts)) && TakeReceiver(s, pts, walk).1.Exact?
    ensures !IsLate(s.playout, pts)
  {
    hide TableOk, Consistent, Balanced, Counted, Abandon;
    AbandonOk(s, walk);
    TakeOk(s.playout, pts);
  }

  /** What the read at the end of these calls gives. */
  ghost function LastResult(code: Code, maxInflight: nat, maxBuffered: nat, calls: seq<Call>): Read
    requires Legal(code, maxInflight, maxBuffered, calls) && calls != [] && calls[|calls| - 1].TakePlayout?
  {
    var read := calls[|calls| - 1];
    TakeReceiver(Replay(code, maxInflight, maxBuffered, calls[..|calls| - 1]), read.pts, read.walk).1
  }

  /**
   Playout moves forward: when a read finds an epoch, every earlier read of the same or a later timestamp
   was followed by a read of an earlier one. So reads that never go back find each timestamp at most once.
   */
  lemma ExactMovesForward(code: Code, maxInflight: nat, maxBuffered: nat, calls: seq<Call>, i: nat)
    requires Legal(code, maxInflight, maxBuffered, calls) && i < |calls| - 1
    requires calls[|calls| - 1].TakePlayout? && LastResult(code, maxInflight, maxBuffered, calls).Exact?
    requires calls[i].TakePlayout? && calls[i].pts >= calls[|calls| - 1].pts
    ensures exists k :: i < k < |calls| - 1 && calls[k].TakePlayout? && calls[k].pts < calls[|calls| - 1].pts
  {
    hide Replay, Legal, Sound, TakeReceiver, Enumerates;
    var before, read := calls[..|calls| - 1], calls[|calls| - 1];
    WalkOfLast(code, maxInflight, maxBuffered, calls);
    var s := Replay(code, maxInflight, maxBuffered, before);
    LastPlayedIsRead(code, maxInflight, maxBuffered, before);
    LastReadAfter(before, i);
    var k :| i <= k < |before| && before[k].TakePlayout? && LastRead(before) == Some(before[k].pts);
    ExactNotLate(s, read.pts, read.walk);
    assert calls[k] == before[k];
  }

  lemma WalkOfLast(code: Code, maxInflight: nat, maxBuffered: nat, calls: seq<Call>)
    requires Legal(code, maxInflight, maxBuffered, calls) && calls != [] && calls[|calls| - 1].TakePlayout?
    ensures Legal(code, maxInflight, maxBuffered, calls[..|calls| - 1])
    ensures Enumerates(calls[|calls| - 1].walk, InflightThrough(Replay(code, maxInflight, maxBuffered, calls[..|calls| - 1]),
                       calls[|calls| - 1].pts))
  {
    hide Replay;
  }

  // ----- the counters

  /** A counter that stops at 2^64 - 1, after `n` more. */
  function Up(x: u64, n: nat): u64 {
    if x + n > 0xFFFF_FFFF_FFFF_FFFF then 0xFFFF_FFFF_FFFF_FFFF else x + n
  }

  function CountOf(shards: seq<Shard>, recovery: Recovery): nat {
    if shards == [] then 0 else (if shards[0].recovery == recovery then 1 else 0) + CountOf(shards[1..], recovery)
  }

  /** What taking in shards adds to the counters: by how they came, groups, and epochs. */
  ghost predicate Added(before: Stats, after: Stats, systematic: nat, recovered: nat, groups: nat, epochs: nat) {
    && after.systematicShards == Up(before.systematicShards, systematic)
    && after.recoveredShards == Up(before.recoveredShards, recovered)
    && after.groupsCompleted == Up(before.groupsCompleted, groups)
    && after.epochsCompleted == Up(before.epochsCompleted, epochs)
    && after.datagramsReceived == before.datagramsReceived && after.exactPlayed == before.exactPlayed
    && after.missing == before.missing
  }

  lemma AddedTwice(a: Stats, b: Stats, c: Stats, x: nat, y: nat, z: nat, w: nat, x': nat, y': nat, z': nat, w': nat)
    requires Added(a, b, x, y, z, w) && Added(b, c, x', y', z', w')
    ensures Added(a, c, x + x', y + y', z + z', w + w')
  {
  }

  lemma {:induction false} SlotCounts(s: Receiver)
    ensures Added(s.stats, EnsureSlot(s).stats, 0, 0, 0, 0)
    decreases |s.order|
  {
    hide Remembered;
    if |s.inflight| >= s.maxInflight && s.order != [] {
      var oldest, popped := s.order[0], s.order[1..];
      SlotRound(s);
      var next := if oldest !in s.inflight then s.(order := popped)
                  else RememberIgnored(CountIncomplete(s.(order := popped, inflight := s.inflight - {oldest})), oldest);
      SlotCounts(next);
      AddedTwice(s.stats, next.stats, EnsureSlot(s).stats, 0, 0, 0, 0, 0, 0, 0, 0);
    } else {
      SlotDone(s);
    }
  }

  lemma AssembleCounts(s: Receiver, shard: Shard)
    requires shard.blockId in s.inflight && EpochShape(s.inflight[shard.blockId]) && ShardInRange(shard)
    ensures var (s', r) := Assemble(s, shard);
            r.Success? ==> Added(s.stats, s'.stats, 0, 0, |r.value.groups|, if r.value.epoch.Some? then 1 else 0)
  {
    hide EpochPush, BufferInsert, FinishedEpoch, AllFilled, EpochShape, Without;
  }

  /** One shard. */
  lemma TakeShardCounts(s: Receiver, shard: Shard)
    requires Shapes(s) && ShardInRange(shard)
    ensures var (s', r) := TakeShard(s, shard);
            r.Success? ==>
              Added(s.stats, s'.stats, if shard.recovery.Systematic? then 1 else 0, if shard.recovery.Repaired? then 1 else 0,
                    |r.value.groups|, if r.value.epoch.Some? then 1 else 0)
  {
    hide Assemble, EnsureSlot, EpochShape;
    var counted := CountShard(s, shard);
    var x, y := if shard.recovery.Systematic? then 1 else 0, if shard.recovery.Repaired? then 1 else 0;
    assert Added(s.stats, counted.stats, x, y, 0, 0);
    SlotKeepsShapes(counted);
    SlotCounts(counted);
    NewEpochShape(shard.blockId, shard.header);
    if !(shard.blockId in s.ignored.members || IsLate(s.playout, shard.header.ptsSamples)) {
      var ready := if shard.blockId in s.inflight then counted else EnsureSlot(counted);
      var opened' := OpenAssembly(ready, shard);
      AssembleCounts(opened', shard);
      var (s', r) := Assemble(opened', shard);
      if r.Success? {
        AddedTwice(s.stats, counted.stats, opened'.stats, x, y, 0, 0, 0, 0, 0, 0);
        AddedTwice(s.stats, opened'.stats, s'.stats, x, y, 0, 0, 0, 0, |r.value.groups|, if r.value.epoch.Some? then 1 else 0);
      }
    }
  }

  lemma {:induction false} TakeShardsCount(s: Receiver, shards: seq<Shard>, sofar: ReceiveOutcome) returns (epochs: nat)
    requires Shapes(s) && AllInRange(shards)
    ensures var (s', r) := TakeShards(s, shards, sofar);
            r.Success? ==>
              && |r.value.groups| >= |sofar.groups|
              && Added(s.stats, s'.stats, CountOf(shards, Systematic), CountOf(shards, Repaired),
                       |r.value.groups| - |sofar.groups|, epochs)
              && (epochs > 0 || sofar.epoch.Some? <==> r.value.epoch.Some?)
    decreases |shards|
  {
    hide TakeShard, Shapes, Added;
    epochs := 0;
    if shards == [] {
      NothingAdded(s.stats);
    } else {
      TakeShardKeepsShapes(s, shards[0]);
      TakeShardCounts(s, shards[0]);
      var one := TakeShard(s, shards[0]);
      if one.1.Success? {
        var next := ReceiveOutcome(sofar.groups + one.1.value.groups,
                                   if one.1.value.epoch.Some? then one.1.value.epoch else sofar.epoch);
        var more := TakeShardsCount(one.0, shards[1..], next);
        var first := if one.1.value.epoch.Some? then 1 else 0;
        epochs := first + more;
        var (s', r) := TakeShards(s, shards, sofar);
        if r.Success? {
          AddedTwice(s.stats, one.0.stats, s'.stats, if shards[0].recovery.Systematic? then 1 else 0,
                     if shards[0].recovery.Repaired? then 1 else 0, |one.1.value.groups|, first,
                     CountOf(shards[1..], Systematic), CountOf(shards[1..], Repaired), |r.value.groups| - |next.groups|, more);
        }
      }
    }
  }

  lemma NothingAdded(stats: Stats)
    ensures Added(stats, stats, 0, 0, 0, 0)
  {
  }

  /**
   What an accepted datagram adds to the counters: itself, the shards handed over by how they came, the
   groups it completed, and epochs if it completed one.
   */
  lemma PushCounts(code: Code, s: Receiver, datagram: Bytes) returns (epochs: nat)
    requires Sound(s) && Shapes(s)
    ensures PushedAudio(code, s.flow, datagram).1.Success? ==> AllInRange(PushedAudio(code, s.flow, datagram).1.value)
    ensures var ((s', r), decoded) := (PushReceiver(code, s, datagram), PushedAudio(code, s.flow, datagram).1);
            && (r.Success? ==>
                  && decoded.Success?
                  && Added(s.stats.(datagramsReceived := Up(s.stats.datagramsReceived, 1)), s'.stats,
                           CountOf(decoded.value, Systematic), CountOf(decoded.value, Repaired), |r.value.groups|, epochs)
                  && (epochs > 0 <==> r.value.epoch.Some?))
            && (decoded.Failure? ==>
                  && r == Failure(Audio(decoded.error))
                  && s'.stats == s.stats.(datagramsReceived := Up(s.stats.datagramsReceived, 1)))
  {
    hide PushedAudio, TakeShards, TableOk, BufferOk, Balanced, Counted, Consistent, Added;
    epochs := 0;
    PushOk(code, s, datagram);
    var (flow', decoded) := PushedAudio(code, s.flow, datagram);
    var t := CountDatagram(s).(flow := flow');
    assert Shapes(t);
    if decoded.Success? {
      epochs := TakeShardsCount(t, decoded.value, ReceiveOutcome([], None));
    }
  }

  lemma {:induction false} AbandonCounts(s: Receiver, blocks: seq<u32>)
    ensures var (before, after) := (s.stats, Abandon(s, blocks).stats);
            after == before.(incompleteDropped := Up(before.incompleteDropped, |blocks|))
    decreases |blocks|
  {
    hide Remembered;
    if blocks != [] {
      AbandonCounts(CountIncomplete(DropInflight(s, blocks[0])), blocks[1..]);
    }
  }

  /** A read counts one epoch played or one missing, and every assembly it gives up. */
  lemma ReadCounts(s: Receiver, pts: u64, walk: seq<u32>)
    ensures var (s', read) := TakeReceiver(s, pts, walk);
            s'.stats == if read.Exact? then
                          s.stats.(incompleteDropped := Up(s.stats.incompleteDropped, |walk|),
                                   exactPlayed := Up(s.stats.exactPlayed, 1))
                        else
                          s.stats.(incompleteDropped := Up(s.stats.incompleteDropped, |walk|),
                                   missing := Up(s.stats.missing, 1))
  {
    hide Abandon;
    AbandonCounts(s, walk);
  }

  /** A new receiver: empty, with room for at least one assembly, four times as many ignored blocks and at least 64. */
  lemma NewReceiverIs(maxInflight: nat, maxBuffered: nat)
    ensures var s := NewReceiver(maxInflight, maxBuffered);
            var max := if maxInflight == 0 then 1 else maxInflight;
            && s.maxInflight == max && s.inflight == map[] && s.order == []
            && s.maxIgnored == (if Min(4 * max, U64_MAX) < 64 then 64 else Min(4 * max, U64_MAX)) && s.ignored.members == {}
            && s.flow.maxInFlight == 128 && s.flow.maxCompleted == 128 && s.flow.inFlight == {}
            && s.playout.max == (if maxBuffered == 0 then 1 else maxBuffered) && s.playout.epochs == map[]
            && s.playout.lastPlayed == None
            && s.stats == Stats(0, 0, 0, 0, 0, 0, 0, 0, 0, 0)
  {
  }
}
