/**
 From encoder to playout: any family of encoded epochs under distinct block ids, their datagrams
 lost, repeated and interleaved in any way, together with any reads and expiries.
 */
module EndToEnd {
  import opened Assembly
  import opened AudioDecoderRuns
  import opened AudioDecoding
  import opened AudioTypes
  import opened ByteCodec
  import opened ClosedWindows
  import opened Collections
  import opened EpochEncoding
  import opened EpochSharding
  import opened ExactAssembly
  import opened GenuineAudio
  import opened MachineInts
  import opened Playout
  import opened RaptorQ
  import opened Session
  import opened SessionRuns
  import opened ShardHeaders
  import opened Wrappers

  /** The decoded epoch is one of those sent, byte for byte. */
  ghost predicate WasSent(sent: Sent, decoded: DecodedEpoch) {
    exists b :: b in sent && IsEpoch(sent[b].cut.epoch, decoded)
  }

  ghost predicate ExactTable(sent: Sent, s: Receiver)
    requires Sends(sent)
  {
    forall b | b in s.inflight :: b in sent && ExactEpoch(sent[b].cut, b, s.inflight[b])
  }

  ghost predicate ExactBuffer(sent: Sent, buffer: Buffer) {
    forall k | k in buffer.epochs :: WasSent(sent, buffer.epochs[k])
  }

  /** Everything the receiver holds is as sent. */
  ghost predicate ExactReceiver(code: Code, sent: Sent, s: Receiver)
    requires Sends(sent)
  {
    && Sound(s)
    && GenuineFlow(code, sent, s.flow)
    && ExactTable(sent, s)
    && ExactBuffer(sent, s.playout)
  }

  // ----- one shard

  ghost predicate IsGroupOf(epoch: Epoch, decoded: DecodedGroup) {
    exists g: nat :: IsGroup(epoch, g, decoded)
  }

  ghost predicate ExactOutcome(epoch: Epoch, outcome: ReceiveOutcome) {
    && (forall i | 0 <= i < |outcome.groups| :: IsGroupOf(epoch, outcome.groups[i]))
    && (outcome.epoch.Some? ==> IsEpoch(epoch, outcome.epoch.value))
  }

  lemma ShardAtIsSlot(c: Cut, b: u32, x: nat, recovery: Recovery)
    requires c.Valid() && x < c.Shards()
    ensures var s := SlotAt(c, x);
            && s.group < |c.epoch.groups| && s.fragment < c.Fragments(s.group)
            && ShardAt(c, b, x, recovery) == SlotShard(c, b, s.group, s.fragment, recovery)
            && ShardInRange(ShardAt(c, b, x, recovery))
            && ShardAt(c, b, x, recovery).blockId == b
            && ShardAt(c, b, x, recovery).header.ptsSamples == c.epoch.ptsSamples
            && ShardAt(c, b, x, recovery).header.sourceIndex == x
  {
    hide Fragment, SlotAt;
    SlotAtIs(c, x);
    SlotShardFields(c, b, SlotAt(c, x).group, SlotAt(c, x).fragment, recovery);
    ShardAtIndex(c, b, x, recovery);
  }

  /** Whether the assembly of block `b` has the shard with source index `x`. */
  ghost predicate Has(s: Receiver, c: Cut, b: u32, x: nat)
    requires c.Valid() && x < c.Shards()
  {
    b in s.inflight && EpochHas(s.inflight[b], SlotAt(c, x).group, SlotAt(c, x).fragment)
  }

  /** The assembly has exactly what it had and the new shard. */
  ghost predicate Gains(c: Cut, b: u32, s: Receiver, s': Receiver, x: nat)
    requires c.Valid()
  {
    && b in s'.inflight
    && forall y: nat | y < c.Shards() :: Has(s', c, b, y) <==> Has(s, c, b, y) || y == x
  }

  /** Shard `x` is the only one the assembly still lacked. */
  ghost predicate WasLast(c: Cut, b: u32, s: Receiver, x: nat)
    requires c.Valid()
  {
    forall y: nat | y < c.Shards() :: Has(s, c, b, y) || y == x
  }

  /** Different source indices sit in different slots. */
  lemma SlotsDiffer(c: Cut, x: nat, y: nat)
    requires c.Valid() && x < c.Shards() && y < c.Shards()
    ensures SlotAt(c, x) == SlotAt(c, y) ==> x == y
  {
    hide SlotAt;
    SlotAtIs(c, x);
    SlotAtIs(c, y);
  }

  /** With every shard in, the assembly is complete. */
  lemma AllIn(c: Cut, b: u32, a: EpochAssembly)
    requires c.Valid() && ExactEpoch(c, b, a)
    requires forall x: nat | x < c.Shards() :: EpochHas(a, SlotAt(c, x).group, SlotAt(c, x).fragment)
    ensures AllFilled(a.groups)
  {
    hide Fragment, SlotAt, ExactGroup, IsHeader, IsGroup;
    forall g | 0 <= g < |a.groups| ensures a.groups[g].Some? {
      if a.groups[g].None? {
        FirstShardNext(c, g);
        forall j: nat | j < c.Fragments(g) ensures EpochHas(a, g, j) {
          SlotAtFound(c, g, j);
          assert EpochHas(a, SlotAt(c, c.FirstShard(g) + j).group, SlotAt(c, c.FirstShard(g) + j).fragment);
        }
        assert EpochHas(a, g, 0);
        var group := a.partial[g];
        ExactGroupSize(c, b, g, group);
        GroupComplete(group);
        forall k: nat | k < |group.pieces| ensures GroupHas(group, k) {
          assert EpochHas(a, g, k);
        }
      }
    }
  }

  lemma AssembleExact(code: Code, sent: Sent, s: Receiver, b: u32, x: nat, recovery: Recovery)
    requires Sends(sent) && ExactReceiver(code, sent, s) && b in s.inflight && x < sent[b].cut.Shards()
    requires EpochShape(s.inflight[b]) && ShardInRange(ShardAt(sent[b].cut, b, x, recovery))
    requires ShardAt(sent[b].cut, b, x, recovery).blockId == b
    ensures var c := sent[b].cut;
            var (s', r) := Assemble(s, ShardAt(c, b, x, recovery));
            && ExactReceiver(code, sent, s') && r.Success? && ExactOutcome(c.epoch, r.value)
            && s'.ignored == s.ignored && s'.playout.lastPlayed == s.playout.lastPlayed
            && (if r.value.epoch.Some? then WasLast(c, b, s, x)
                else Gains(c, b, s, s', x) && !AllFilled(s'.inflight[b].groups))
  {
    hide Sound, GenuineFlow, EpochPush, ShardAt, SlotShard, SlotAt, ExactEpoch, IsEpoch, IsGroup, BufferInsert, Cut.Shards,
         Cut.Fragments, EpochHas, AllFilled, EpochShape, FinishedEpoch, Without;
    var c := sent[b].cut;
    var shard := ShardAt(c, b, x, recovery);
    AssembleOk(s, shard);
    ShardAtIsSlot(c, b, x, recovery);
    var slot := SlotAt(c, x);
    EpochPushExact(c, b, s.inflight[b], slot.group, slot.fragment, recovery);
    var pushed := EpochPush(s.inflight[b], shard);
    if pushed.1.value.Some? {
      assert IsGroup(c.epoch, slot.group, pushed.1.value.value);
    }
    if AllFilled(pushed.0.groups) {
      FinishedExact(c, b, pushed.0);
      InsertExact(sent, b, s.playout, FinishedEpoch(pushed.0), s);
      forall y: nat | y < c.Shards() ensures Has(s, c, b, y) || y == x {
        SlotAtIs(c, y);
        SlotsDiffer(c, x, y);
        AllHas(c, b, pushed.0, SlotAt(c, y).group, SlotAt(c, y).fragment);
      }
    } else {
      var s' := Assemble(s, shard).0;
      forall y: nat | y < c.Shards() ensures Has(s', c, b, y) <==> Has(s, c, b, y) || y == x {
        SlotAtIs(c, y);
        SlotsDiffer(c, x, y);
      }
    }
  }

  lemma AllHas(c: Cut, b: u32, a: EpochAssembly, g: nat, j: nat)
    requires c.Valid() && ExactEpoch(c, b, a) && AllFilled(a.groups) && g < |c.epoch.groups|
    ensures EpochHas(a, g, j)
  {
    hide IsHeader, IsGroup, ExactGroup, GroupHas;
    FilledHasAll(a, g);
  }

  lemma InsertExact(sent: Sent, b: u32, buffer: Buffer, epoch: DecodedEpoch, s: Receiver)
    requires Sends(sent) && b in sent && IsEpoch(sent[b].cut.epoch, epoch) && ExactBuffer(sent, buffer)
    requires Sound(s) && s.playout == buffer
    ensures ExactBuffer(sent, BufferInsert(buffer, epoch).0)
    ensures BufferInsert(buffer, epoch).0.lastPlayed == buffer.lastPlayed
  {
    hide IsEpoch, BufferInsert, BufferOk, TableOk;
    InsertOk(buffer, epoch);
    assert WasSent(sent, epoch);
  }

  lemma OpenExact(code: Code, sent: Sent, s: Receiver, b: u32, x: nat, recovery: Recovery)
    requires Sends(sent) && ExactReceiver(code, sent, s) && b in sent && x < sent[b].cut.Shards()
    requires b !in s.ignored.members && !IsLate(s.playout, sent[b].cut.epoch.ptsSamples)
    requires b in s.inflight || |s.inflight| < s.maxInflight
    ensures var c := sent[b].cut;
            var s' := OpenAssembly(s, ShardAt(c, b, x, recovery));
            && ExactReceiver(code, sent, s') && b in s'.inflight && EpochShape(s'.inflight[b])
            && s'.ignored == s.ignored && s'.playout == s.playout
            && (forall y: nat | y < c.Shards() :: Has(s', c, b, y) <==> Has(s, c, b, y))
  {
    hide Sound, GenuineFlow, SlotShard, SlotAt, ShardAt, ShardOf, IsEpoch, IsGroup, Cut.Shards, Cut.Fragments, EpochHas,
         ExactEpoch, NewEpoch;
    var c := sent[b].cut;
    ShardAtIsSlot(c, b, x, recovery);
    var slot := SlotAt(c, x);
    SlotShardFields(c, b, slot.group, slot.fragment, recovery);
    if b !in s.inflight {
      OpenOk(s, ShardAt(c, b, x, recovery));
      NewEpochExact(c, b, slot.group, slot.fragment);
      ExactEpochShape(c, b, NewEpoch(b, ShardOf(c, slot.group, slot.fragment)));
    } else {
      ExactEpochShape(c, b, s.inflight[b]);
    }
  }

  lemma SlotExact(code: Code, sent: Sent, s: Receiver)
    requires Sends(sent) && ExactReceiver(code, sent, s)
    ensures ExactReceiver(code, sent, EnsureSlot(s))
  {
    hide Sound, GenuineFlow, EnsureSlot, ExactEpoch;
    EnsureSlotOk(s);
  }

  lemma CountExact(code: Code, sent: Sent, s: Receiver, shard: Shard)
    requires Sends(sent) && ExactReceiver(code, sent, s)
    ensures ExactReceiver(code, sent, CountShard(s, shard))
  {
    hide Sound, GenuineFlow, ExactEpoch;
    CountShardOk(s, shard);
  }

  /** The block is not ignored and its epoch not late: shards of it are taken in. */
  ghost predicate Wanted(s: Receiver, c: Cut, b: u32) {
    b !in s.ignored.members && !IsLate(s.playout, c.epoch.ptsSamples)
  }

  /** A genuine shard: what comes out was sent, and a wanted block gains it or completes. */
  lemma TakeShardExact(code: Code, sent: Sent, s: Receiver, b: u32, x: nat, recovery: Recovery)
    requires Sends(sent) && ExactReceiver(code, sent, s) && b in sent && x < sent[b].cut.Shards()
    requires Shapes(s) && ShardInRange(ShardAt(sent[b].cut, b, x, recovery))
    ensures var c := sent[b].cut;
            var (s', r) := TakeShard(s, ShardAt(c, b, x, recovery));
            && ExactReceiver(code, sent, s') && r.Success? && ExactOutcome(c.epoch, r.value)
            && (r.value.epoch.Some? ==> WasLast(c, b, s, x))
            && (Wanted(s, c, b) && r.value.epoch.None? ==>
                  Wanted(s', c, b) && Gains(c, b, s, s', x) && !AllFilled(s'.inflight[b].groups))
  {
    hide Sound, GenuineFlow, ShardAt, SlotAt, Cut.Shards, ExactTable, ExactBuffer, Assemble, EnsureSlot, EpochHas, IsEpoch,
         IsGroup, EpochShape;
    var c := sent[b].cut;
    var shard := ShardAt(c, b, x, recovery);
    ShardAtIsSlot(c, b, x, recovery);
    var counted := CountShard(s, shard);
    CountExact(code, sent, s, shard);
    SlotKeepsShapes(counted);
    if Wanted(s, c, b) {
      SlotExact(code, sent, counted);
      EnsureSlotOk(counted);
      var ready := if b in s.inflight then counted else EnsureSlot(counted);
      OpenExact(code, sent, ready, b, x, recovery);
      var t := OpenAssembly(ready, shard);
      AssembleExact(code, sent, t, b, x, recovery);
      var s' := Assemble(t, shard).0;
      forall y: nat | y < c.Shards() ensures Has(t, c, b, y) <==> Has(s, c, b, y) {
        assert Has(t, c, b, y) <==> Has(ready, c, b, y);
      }
    }
  }

  // ----- the shards of one datagram

  /** Shards of one sent block, whole and untouched. */
  ghost predicate GenuineShards(c: Cut, b: u32, shards: seq<Shard>)
    requires c.Valid()
  {
    forall shard | shard in shards :: GenuineShard(c, b, shard)
  }

  ghost predicate GenuineShard(c: Cut, b: u32, shard: Shard)
    requires c.Valid()
  {
    shard.header.sourceIndex < c.Shards() && shard == ShardAt(c, b, shard.header.sourceIndex, shard.recovery)
  }

  function Outcomes(sofar: ReceiveOutcome, one: ReceiveOutcome): ReceiveOutcome {
    ReceiveOutcome(sofar.groups + one.groups, if one.epoch.Some? then one.epoch else sofar.epoch)
  }

  /** Taking shards one after the other, first then the rest. */
  lemma TakeFirst(s: Receiver, shards: seq<Shard>, sofar: ReceiveOutcome)
    requires Shapes(s) && AllInRange(shards) && shards != []
    requires TakeShard(s, shards[0]).1.Success?
    ensures Shapes(TakeShard(s, shards[0]).0) && AllInRange(shards[1..])
    ensures TakeShards(s, shards, sofar)
            == TakeShards(TakeShard(s, shards[0]).0, shards[1..], Outcomes(sofar, TakeShard(s, shards[0]).1.value))
  {
    hide TakeShard;
    TakeShardKeepsShapes(s, shards[0]);
  }

  lemma {:induction false} TakeShardsExact(code: Code, sent: Sent, s: Receiver, b: u32, shards: seq<Shard>, sofar: ReceiveOutcome)
    requires Sends(sent) && ExactReceiver(code, sent, s) && b in sent && Shapes(s) && AllInRange(shards)
    requires GenuineShards(sent[b].cut, b, shards) && ExactOutcome(sent[b].cut.epoch, sofar)
    ensures var (s', r) := TakeShards(s, shards, sofar);
            ExactReceiver(code, sent, s') && r.Success? && ExactOutcome(sent[b].cut.epoch, r.value)
    decreases |shards|
  {
    hide ExactReceiver, TakeShard, ShardAt, Cut.Shards, IsGroupOf, IsEpoch, Shapes;
    if shards != [] {
      assert GenuineShard(sent[b].cut, b, shards[0]);
      TakeShardExact(code, sent, s, b, shards[0].header.sourceIndex, shards[0].recovery);
      TakeFirst(s, shards, sofar);
      var one := TakeShard(s, shards[0]);
      TakeShardsExact(code, sent, one.0, b, shards[1..], Outcomes(sofar, one.1.value));
    }
  }

  // ----- one datagram

  lemma GenuineIsConsistent(code: Code, sent: Sent, flow: Flow)
    requires Sends(sent) && GenuineFlow(code, sent, flow)
    ensures Consistent(flow)
  {
    hide Consistent;
  }

  lemma FlowExact(code: Code, sent: Sent, s: Receiver, flow: Flow)
    requires Sends(sent) && ExactReceiver(code, sent, s) && GenuineFlow(code, sent, flow)
    ensures ExactReceiver(code, sent, CountDatagram(s).(flow := flow))
  {
    hide ExactEpoch, GenuineFlow;
    GenuineIsConsistent(code, sent, flow);
    FlowCounted(s, flow);
    hide Sound;
  }

  /** What the decoder hands over for a genuine datagram. */
  lemma OutputGenuine(code: Code, sent: Sent, flow: Flow, b: u32, i: nat)
    requires code.Lawful() && Sends(sent) && b in sent && i < sent[b].Datagrams() && GenuineFlow(code, sent, flow)
    ensures var (flow', r) := PushedAudio(code, flow, SentDatagram(code, sent[b], i));
            && r.Success? && GenuineFlow(code, sent, flow') && GenuineShards(sent[b].cut, b, r.value)
  {
    hide PushedAudio, SentDatagram, GenuineFlow, ShardAt, Cut.Shards, OwnIndex, FirstIndices;
    GenuinePush(code, sent, flow, b, i);
  }

  /**
   A datagram of a sent epoch is never refused by the receiver, and every group and epoch it
   completes is one that was sent.
   */
  lemma PushExact(code: Code, sent: Sent, s: Receiver, b: u32, i: nat)
    requires code.Lawful() && Sends(sent) && ExactReceiver(code, sent, s) && b in sent && i < sent[b].Datagrams() && Shapes(s)
    requires var r := PushedAudio(code, s.flow, SentDatagram(code, sent[b], i)).1; r.Success? ==> AllInRange(r.value)
    ensures var (s', r) := PushReceiver(code, s, SentDatagram(code, sent[b], i));
            ExactReceiver(code, sent, s') && r.Success? && ExactOutcome(sent[b].cut.epoch, r.value)
  {
    hide PushedAudio, SentDatagram, TakeShards, GenuineFlow, Sound, GenuineShards, Shapes, Cut.Shards;
    var datagram := SentDatagram(code, sent[b], i);
    OutputGenuine(code, sent, s.flow, b, i);
    var pushed := PushedAudio(code, s.flow, datagram);
    FlowExact(code, sent, s, pushed.0);
    var s' := CountDatagram(s).(flow := pushed.0);
    ShapesKept(s, pushed.0);
    TakeShardsExact(code, sent, s', b, pushed.1.value, ReceiveOutcome([], None));
  }

  lemma ShapesKept(s: Receiver, flow: Flow)
    requires Shapes(s)
    ensures Shapes(CountDatagram(s).(flow := flow))
  {
  }

  // ----- reads and expiries

  lemma {:induction false} DropAllKeeps(s: Receiver, blocks: seq<u32>)
    ensures var s' := DropAll(s, blocks);
            && s'.playout == s.playout && s'.flow == s.flow
            && forall b | b in s'.inflight :: b in s.inflight && s'.inflight[b] == s.inflight[b]
    decreases |blocks|
  {
    hide Remembered;
    if blocks != [] {
      DropAllKeeps(DropInflight(s, blocks[0]), blocks[1..]);
    }
  }

  lemma ReadParts(s: Receiver, pts: u64, walk: seq<u32>)
    ensures var (s', read) := TakeReceiver(s, pts, walk);
            var t := Abandon(s, walk);
            && s'.inflight == t.inflight && s'.flow == t.flow && (s'.playout, read) == BufferTake(t.playout, pts)
            && (read.Missing? ==> read.ptsSamples == pts)
  {
    hide Abandon;
  }

  /** A read hands out an epoch that was sent, under the timestamp asked for, or says it is missing. */
  lemma TakeExact(code: Code, sent: Sent, s: Receiver, pts: u64, walk: seq<u32>)
    requires Sends(sent) && ExactReceiver(code, sent, s) && Enumerates(walk, InflightThrough(s, pts))
    ensures var (s', read) := TakeReceiver(s, pts, walk);
            && ExactReceiver(code, sent, s')
            && (read.Exact? ==> read.epoch.ptsSamples == pts && WasSent(sent, read.epoch))
            && (read.Missing? ==> read.ptsSamples == pts)
  {
    hide GenuineFlow, ExactEpoch, WasSent, Abandon, TableOk, Consistent, Balanced, Counted, BufferTake, TakeReceiver;
    ReadParts(s, pts, walk);
    TakeReceiverOk(s, pts, walk);
    AbandonOk(s, walk);
    TakeOk(s.playout, pts);
  }

  lemma ExpireExact(code: Code, sent: Sent, s: Receiver, pts: u64, walk: seq<u32>)
    requires Sends(sent) && ExactReceiver(code, sent, s) && Enumerates(walk, InflightBefore(s, pts))
    ensures ExactReceiver(code, sent, ExpireReceiver(s, pts, walk).0)
  {
    hide GenuineFlow, ExactEpoch, WasSent, DropAll, TableOk, Consistent;
    ExpireReceiverOk(s, pts, walk);
    ExpireOk(s.playout, pts);
    DropAllKeeps(s.(playout := BufferExpire(s.playout, pts).0), walk);
  }

  // ----- whole runs

  /** The bytes are a datagram of some sent epoch. */
  ghost predicate Genuine(code: Code, sent: Sent, bytes: Bytes)
    requires Sends(sent)
  {
    exists b, i: nat :: b in sent && i < sent[b].Datagrams() && bytes == SentDatagram(code, sent[b], i)
  }

  ghost predicate GenuineCalls(code: Code, sent: Sent, calls: seq<Call>)
    requires Sends(sent)
  {
    forall i | 0 <= i < |calls| :: calls[i].Datagram? ==> Genuine(code, sent, calls[i].bytes)
  }

  lemma NewExact(code: Code, sent: Sent, maxInflight: nat, maxBuffered: nat)
    requires Sends(sent)
    ensures ExactReceiver(code, sent, NewReceiver(maxInflight, maxBuffered))
  {
    NewSound(maxInflight, maxBuffered);
    NewIsConsistent(128, 128);
    hide Sound, Consistent;
  }

  /** What a call may hand to its caller. */
  ghost predicate ExactCall(code: Code, sent: Sent, s: Receiver, call: Call)
    requires Sends(sent) && Sound(s)
  {
    SoundHasShapes(s);
    match call
    case Datagram(bytes) =>
      PushOk(code, s, bytes);
      var r := PushReceiver(code, s, bytes).1;
      r.Success? && exists b :: b in sent && ExactOutcome(sent[b].cut.epoch, r.value)
    case TakePlayout(pts, walk) =>
      var read := TakeReceiver(s, pts, walk).1;
      if read.Exact? then read.epoch.ptsSamples == pts && WasSent(sent, read.epoch) else read.ptsSamples == pts
    case ExpireBefore(_, _) => true
  }

  lemma CallExact(code: Code, sent: Sent, s: Receiver, call: Call)
    requires code.Lawful() && Sends(sent) && Sound(s) && ExactReceiver(code, sent, s) && Walks(s, call)
    requires call.Datagram? ==> Genuine(code, sent, call.bytes)
    ensures ExactReceiver(code, sent, After(code, s, call)) && ExactCall(code, sent, s, call)
  {
    hide Sound, ExactReceiver, PushReceiver, TakeReceiver, ExpireReceiver, SentDatagram, ExactOutcome, WasSent, Enumerates,
         PushedAudio, TableOk, Shapes, AllInRange;
    SoundTable(s);
    SoundHasShapes(s);
    match call
    case Datagram(bytes) =>
      var b, i: nat :| b in sent && i < sent[b].Datagrams() && bytes == SentDatagram(code, sent[b], i);
      PushOk(code, s, bytes);
      PushExact(code, sent, s, b, i);
    case TakePlayout(pts, walk) => TakeExact(code, sent, s, pts, walk);
    case ExpireBefore(pts, walk) => ExpireExact(code, sent, s, pts, walk);
  }

  lemma {:induction false} RunExact(code: Code, sent: Sent, maxInflight: nat, maxBuffered: nat, calls: seq<Call>)
    requires code.Lawful() && Sends(sent) && Legal(code, maxInflight, maxBuffered, calls) && GenuineCalls(code, sent, calls)
    ensures ExactReceiver(code, sent, Replay(code, maxInflight, maxBuffered, calls))
    decreases |calls|
  {
    hide Sound, ExactReceiver, Walks, After, Genuine;
    if calls == [] {
      NewExact(code, sent, maxInflight, maxBuffered);
    } else {
      var before, last := calls[..|calls| - 1], calls[|calls| - 1];
      assert GenuineCalls(code, sent, before);
      RunExact(code, sent, maxInflight, maxBuffered, before);
      CallExact(code, sent, Replay(code, maxInflight, maxBuffered, before), last);
    }
  }

  /**
   Exact or missing: after any run of genuine datagrams (lost, repeated, reordered, interleaved
   across epochs) and any reads and expiries, the next genuine datagram is accepted and completes
   only groups and epochs that were sent, and the next read returns an epoch that was sent under the
   timestamp asked for, or reports it missing.
   */
  lemma ExactOrMissing(code: Code, sent: Sent, maxInflight: nat, maxBuffered: nat, calls: seq<Call>, next: Call)
    requires code.Lawful() && Sends(sent)
    requires Legal(code, maxInflight, maxBuffered, calls + [next]) && GenuineCalls(code, sent, calls + [next])
    ensures Legal(code, maxInflight, maxBuffered, calls)
    ensures ExactCall(code, sent, Replay(code, maxInflight, maxBuffered, calls), next)
  {
    hide Sound, ExactReceiver, Walks, ExactCall, Replay, Genuine;
    var all := calls + [next];
    assert all[..|all| - 1] == calls && all[|calls|] == next;
    assert forall i | 0 <= i < |calls| :: calls[i] == all[i];
    RunExact(code, sent, maxInflight, maxBuffered, calls);
    CallExact(code, sent, Replay(code, maxInflight, maxBuffered, calls), next);
  }
}
