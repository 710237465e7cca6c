/**
 The multichannel audio receiver: decoded shards go to the assembly of their block, complete epochs
 to the playout buffer, and every epoch it ever opened comes to exactly one end. The functions are
 its transitions over a value, the class performs them in place. Where the source walks a hash
 table, the order of that walk is a parameter.
 */
module Session {
  import opened Assembly
  import opened AudioDecoderRuns
  import opened AudioDecoding
  import opened ByteCodec
  import opened ClosedWindows
  import opened Collections
  import opened MachineInts
  import opened Playout
  import opened RaptorQ
  import opened ShardHeaders
  import opened Wrappers

  datatype Stats = Stats(
    datagramsReceived: u64, systematicShards: u64, recoveredShards: u64, groupsCompleted: u64, epochsCompleted: u64,
    exactPlayed: u64, missing: u64, incompleteDropped: u64, staleDropped: u64, duplicateOrLate: u64)

  const NO_STATS := Stats(0, 0, 0, 0, 0, 0, 0, 0, 0, 0)

  /**
   What became of the epochs opened so far. The source keeps no such record: its counters saturate,
   and epochs skipped when playout jumps ahead are not counted at all.
   */
  datatype Ledger = Ledger(started: nat, played: nat, duplicateOrLate: nat, incomplete: nat, stale: nat, skipped: nat)

  datatype Receiver = Receiver(
    flow: Flow, inflight: map<u32, EpochAssembly>, order: seq<u32>, ignored: Window, maxInflight: nat, maxIgnored: nat,
    playout: Buffer, stats: Stats, ledger: Ledger)

  function NewReceiver(maxInflight: nat, maxBuffered: nat): Receiver {
    var max := Max(maxInflight, 1);
    Receiver(NewFlow(128, 128), map[], [], ClosedWindows.EMPTY, max, Max(SatMul(max, 4), 64), NewBuffer(maxBuffered),
             NO_STATS, Ledger(0, 0, 0, 0, 0, 0))
  }

  datatype ReceiveOutcome = ReceiveOutcome(groups: seq<DecodedGroup>, epoch: Option<DecodedEpoch>)

  // ----- the table of assemblies

  function RememberIgnored(s: Receiver, blockId: u32): Receiver {
    s.(ignored := Remembered(s.ignored, blockId, s.maxIgnored))
  }

  /** `ensure_inflight_slot`: drop the oldest incomplete epochs while the table is full. */
  function EnsureSlot(s: Receiver): Receiver
    decreases |s.order|
  {
    if |s.inflight| < s.maxInflight || s.order == [] then s
    else
      var oldest := s.order[0];
      var popped := s.(order := s.order[1..]);
      EnsureSlot(
        if oldest !in s.inflight then popped
        else RememberIgnored(CountIncomplete(popped.(inflight := s.inflight - {oldest})), oldest))
  }

  function CountIncomplete(s: Receiver): Receiver {
    s.(stats := s.stats.(incompleteDropped := SatAdd(s.stats.incompleteDropped, 1)),
       ledger := s.ledger.(incomplete := s.ledger.incomplete + 1))
  }

  /** `drop_inflight` */
  function DropInflight(s: Receiver, blockId: u32): Receiver {
    RememberIgnored(s.(inflight := s.inflight - {blockId}, order := Without(s.order, blockId)), blockId)
  }

  function OpenAssembly(s: Receiver, shard: Shard): Receiver {
    var b := shard.blockId;
    if b in s.inflight then s
    else s.(inflight := s.inflight[b := NewEpoch(b, shard.header)], order := s.order + [b],
            ledger := s.ledger.(started := s.ledger.started + 1))
  }

  // ----- shards

  function CountShard(s: Receiver, shard: Shard): Receiver {
    s.(stats := match shard.recovery
                case Systematic => s.stats.(systematicShards := SatAdd(s.stats.systematicShards, 1))
                case Repaired => s.stats.(recoveredShards := SatAdd(s.stats.recoveredShards, 1)))
  }

  /** Hand a complete epoch to the playout buffer. */
  ghost function Complete(s: Receiver, blockId: u32): (Receiver, DecodedEpoch)
    requires blockId in s.inflight && AllFilled(s.inflight[blockId].groups)
  {
    var epoch := FinishedEpoch(s.inflight[blockId]);
    var (playout', inserted) := BufferInsert(s.playout, epoch);
    var s' := s.(inflight := s.inflight - {blockId}, order := Without(s.order, blockId), playout := playout',
                 stats := s.stats.(epochsCompleted := SatAdd(s.stats.epochsCompleted, 1)));
    (match inserted
     case Inserted => s'
     case DuplicateOrLate =>
       s'.(stats := s'.stats.(duplicateOrLate := SatAdd(s'.stats.duplicateOrLate, 1)),
           ledger := s'.ledger.(duplicateOrLate := s'.ledger.duplicateOrLate + 1))
     case EvictedStale(count) =>
       s'.(stats := s'.stats.(staleDropped := SatAdd(s'.stats.staleDropped, count)),
           ledger := s'.ledger.(stale := s'.ledger.stale + count)), epoch)
  }

  ghost predicate Shapes(s: Receiver) {
    forall b | b in s.inflight :: EpochShape(s.inflight[b])
  }

  predicate ShardInRange(shard: Shard) {
    shard.header.fragmentIndex < shard.header.fragmentCount && shard.header.groupIndex < shard.header.groupCount
  }

  /** Push the shard into the assembly of its block, which is open. */
  ghost function Assemble(s: Receiver, shard: Shard): (Receiver, Result<ReceiveOutcome, SessionError>)
    requires shard.blockId in s.inflight && EpochShape(s.inflight[shard.blockId]) && ShardInRange(shard)
  {
    var b := shard.blockId;
    var (assembly, r) := EpochPush(s.inflight[b], shard);
    var s' := s.(inflight := s.inflight[b := assembly]);
    match r
    case Failure(error) => (s', Failure(error))
    case Success(group) =>
      var counted := if group.None? then s'
                     else s'.(stats := s'.stats.(groupsCompleted := SatAdd(s'.stats.groupsCompleted, 1)));
      var groups := if group.None? then [] else [group.value];
      if AllFilled(assembly.groups) then
        var (s'', epoch) := Complete(counted, b);
        (s'', Success(ReceiveOutcome(groups, Some(epoch))))
      else (counted, Success(ReceiveOutcome(groups, None)))
  }

  /** One shard of the loop in `push_datagram`. */
  ghost function TakeShard(s: Receiver, shard: Shard): (Receiver, Result<ReceiveOutcome, SessionError>)
    requires Shapes(s) && ShardInRange(shard)
  {
    var counted := CountShard(s, shard);
    if shard.blockId in s.ignored.members || IsLate(s.playout, shard.header.ptsSamples) then
      (counted, Success(ReceiveOutcome([], None)))
    else
      var ready := if shard.blockId in s.inflight then counted else EnsureSlot(counted);
      SlotKeepsShapes(counted);
      Assemble(OpenAssembly(ready, shard), shard)
  }

  /** One round of the loop. */
  lemma SlotRound(s: Receiver)
    requires |s.inflight| >= s.maxInflight && s.order != []
    ensures var oldest, popped := s.order[0], s.order[1..];
            EnsureSlot(s) == EnsureSlot(
              if oldest !in s.inflight then s.(order := popped)
              else RememberIgnored(CountIncomplete(s.(order := popped, inflight := s.inflight - {oldest})), oldest))
  {
  }

  lemma SlotDone(s: Receiver)
    requires |s.inflight| < s.maxInflight || s.order == []
    ensures EnsureSlot(s) == s
  {
  }

  lemma SlotKeepsShapes(s: Receiver)
    requires Shapes(s)
    ensures Shapes(EnsureSlot(s))
    decreases |s.order|
  {
    if !(|s.inflight| < s.maxInflight || s.order == []) {
      var oldest := s.order[0];
      var popped := s.(order := s.order[1..]);
      if oldest !in s.inflight {
        SlotKeepsShapes(popped);
      } else {
        SlotKeepsShapes(RememberIgnored(CountIncomplete(popped.(inflight := s.inflight - {oldest})), oldest));
      }
    }
  }

  lemma AssembleKeepsShapes(s: Receiver, shard: Shard)
    requires Shapes(s) && shard.blockId in s.inflight && ShardInRange(shard)
    ensures Shapes(Assemble(s, shard).0)
  {
    hide EpochPush, BufferInsert;
    EpochPushKeepsShape(s.inflight[shard.blockId], shard);
  }

  lemma TakeShardKeepsShapes(s: Receiver, shard: Shard)
    requires Shapes(s) && ShardInRange(shard)
    ensures Shapes(TakeShard(s, shard).0)
  {
    hide Assemble, EnsureSlot, EpochShape;
    var counted := CountShard(s, shard);
    SlotKeepsShapes(counted);
    NewEpochShape(shard.blockId, shard.header);
    if !(shard.blockId in s.ignored.members || IsLate(s.playout, shard.header.ptsSamples)) {
      AssembleKeepsShapes(OpenAssembly(if shard.blockId in s.inflight then counted else EnsureSlot(counted), shard), shard);
    }
  }

  ghost predicate AllInRange(shards: seq<Shard>) {
    forall i | 0 <= i < |shards| :: ShardInRange(shards[i])
  }

  /** The shards of one datagram in order; an error drops the rest. */
  ghost function TakeShards(s: Receiver, shards: seq<Shard>, sofar: ReceiveOutcome): (Receiver, Result<ReceiveOutcome, SessionError>)
    requires Shapes(s) && AllInRange(shards)
    decreases |shards|
  {
    if shards == [] then (s, Success(sofar))
    else
      var (s', r) := TakeShard(s, shards[0]);
      TakeShardKeepsShapes(s, shards[0]);
      match r
      case Failure(error) => (s', Failure(error))
      case Success(one) =>
        TakeShards(s', shards[1..],
                   ReceiveOutcome(sofar.groups + one.groups, if one.epoch.Some? then one.epoch else sofar.epoch))
  }

  function CountDatagram(s: Receiver): Receiver {
    s.(stats := s.stats.(datagramsReceived := SatAdd(s.stats.datagramsReceived, 1)))
  }

  /** `push_datagram` */
  ghost function PushReceiver(code: Code, s: Receiver, datagram: Bytes): (Receiver, Result<ReceiveOutcome, SessionError>)
    requires Shapes(s)
    requires PushedAudio(code, s.flow, datagram).1.Success? ==> AllInRange(PushedAudio(code, s.flow, datagram).1.value)
  {
    var (flow', r) := PushedAudio(code, s.flow, datagram);
    var s' := CountDatagram(s).(flow := flow');
    match r
    case Failure(error) => (s', Failure(Audio(error)))
    case Success(shards) => TakeShards(s', shards, ReceiveOutcome([], None))
  }

  // ----- playout

  function InflightThrough(s: Receiver, pts: u64): set<u32> {
    set b | b in s.inflight && s.inflight[b].header.ptsSamples <= pts
  }

  function InflightBefore(s: Receiver, pts: u64): set<u32> {
    set b | b in s.inflight && s.inflight[b].header.ptsSamples < pts
  }

  /** `abandon_inflight_through`, walking the table in this order */
  function Abandon(s: Receiver, blocks: seq<u32>): Receiver
    decreases |blocks|
  {
    if blocks == [] then s else Abandon(CountIncomplete(DropInflight(s, blocks[0])), blocks[1..])
  }

  /** `take_for_playout` */
  function TakeReceiver(s: Receiver, pts: u64, blocks: seq<u32>): (Receiver, Read) {
    var s' := Abandon(s, blocks);
    var skipped := |Before(s'.playout.epochs, pts)|;
    var (playout', read) := BufferTake(s'.playout, pts);
    var s'' := s'.(playout := playout', ledger := s'.ledger.(skipped := s'.ledger.skipped + skipped));
    (if read.Exact? then
       s''.(stats := s''.stats.(exactPlayed := SatAdd(s''.stats.exactPlayed, 1)),
            ledger := s''.ledger.(played := s''.ledger.played + 1))
     else
       s''.(stats := s''.stats.(missing := SatAdd(s''.stats.missing, 1))), read)
  }

  function DropAll(s: Receiver, blocks: seq<u32>): Receiver
    decreases |blocks|
  {
    if blocks == [] then s else DropAll(DropInflight(s, blocks[0]), blocks[1..])
  }

  /** `expire_before`, walking the table in this order */
  function ExpireReceiver(s: Receiver, pts: u64, blocks: seq<u32>): (Receiver, nat) {
    var (playout', buffered) := BufferExpire(s.playout, pts);
    var s' := DropAll(s.(playout := playout'), blocks);
    var dropped := buffered + |blocks|;
    (s'.(stats := s'.stats.(staleDropped := SatAdd(s'.stats.staleDropped, dropped)),
         ledger := s'.ledger.(stale := s'.ledger.stale + dropped)), dropped)
  }

  /** The decoder only ever hands over shards whose indices are within their counts. */
  lemma PushedInRange(code: Code, s: Flow, datagram: Bytes)
    requires Consistent(s)
    ensures Consistent(PushedAudio(code, s, datagram).0)
    ensures PushedAudio(code, s, datagram).1.Success? ==> AllInRange(PushedAudio(code, s, datagram).1.value)
  {
    hide PushedAudio;
    PushKeeps(code, s, datagram);
  }

  class MultichannelAudioReceiver {
    const decoder: MultichannelAudioFecDecoder
    var inflight: map<u32, EpochAssembly>
    var order: seq<u32>
    var ignored: set<u32>
    var ignoredOrder: seq<u32>
    ghost var ignoredHistory: seq<u32>
    const maxInflight: nat
    const maxIgnored: nat
    const playout: ExactPlayoutBuffer
    var stats: Stats
    ghost var ledger: Ledger

    ghost function Abs(): Receiver
      reads this, decoder, decoder.fec, decoder.fec.tracker, playout
    {
      Receiver(decoder.Abs(), inflight, order, Window(ignored, ignoredOrder, ignoredHistory), maxInflight, maxIgnored,
               playout.Abs(), stats, ledger)
    }

    ghost predicate Valid()
      reads this, decoder, decoder.fec, decoder.fec.tracker, playout
    {
      Shapes(Abs()) && Consistent(decoder.Abs())
    }

    constructor (code: Code, maxInflight: nat, maxBuffered: nat)
      ensures Valid() && Abs() == NewReceiver(maxInflight, maxBuffered) && decoder.fec.code == code
      ensures fresh(decoder) && fresh(decoder.fec) && fresh(decoder.fec.tracker) && fresh(playout)
    {
      decoder := new MultichannelAudioFecDecoder(code, 128, 128);
      var max := Max(maxInflight, 1);
      this.maxInflight, maxIgnored := max, Max(SatMul(max, 4), 64);
      playout := new ExactPlayoutBuffer(maxBuffered);
      inflight, order, ignored, ignoredOrder, ignoredHistory := map[], [], {}, [], [];
      stats, ledger := NO_STATS, Ledger(0, 0, 0, 0, 0, 0);
      new;
      NewIsConsistent(128, 128);
    }

    method PushDatagram(datagram: Bytes) returns (r: Result<ReceiveOutcome, SessionError>)
      requires Valid()
      modifies this, decoder, decoder.fec, decoder.fec.tracker, playout
      ensures Valid()
      ensures PushedAudio(decoder.fec.code, old(decoder.Abs()), datagram).1.Success? ==>
                AllInRange(PushedAudio(decoder.fec.code, old(decoder.Abs()), datagram).1.value)
      ensures (Abs(), r) == PushReceiver(decoder.fec.code, old(Abs()), datagram)
    {
      hide PushedAudio, TakeShard, Consistent, EpochShape;
      stats := stats.(datagramsReceived := SatAdd(stats.datagramsReceived, 1));
      PushedInRange(decoder.fec.code, decoder.Abs(), datagram);
      var shards := decoder.PushDatagram(datagram);
      if shards.Failure? {
        return Failure(Audio(shards.error));
      }
      var sofar := ReceiveOutcome([], None);
      ghost var goal := PushReceiver(decoder.fec.code, old(Abs()), datagram);
      ghost var flow := decoder.Abs();
      for i := 0 to |shards.value|
        invariant Shapes(Abs()) && decoder.Abs() == flow
        invariant TakeShards(Abs(), shards.value[i..], sofar) == goal
      {
        assert shards.value[i..][1..] == shards.value[i + 1..];
        TakeShardKeepsShapes(Abs(), shards.value[i]);
        var one := Take(shards.value[i]);
        if one.Failure? {
          return Failure(one.error);
        }
        sofar := ReceiveOutcome(sofar.groups + one.value.groups, if one.value.epoch.Some? then one.value.epoch else sofar.epoch);
      }
      r := Success(sofar);
    }

    method Take(shard: Shard) returns (r: Result<ReceiveOutcome, SessionError>)
      requires Shapes(Abs()) && ShardInRange(shard)
      modifies this, playout
      ensures (Abs(), r) == TakeShard(old(Abs()), shard)
    {
      hide EpochPush, BufferInsert, EnsureSlot, EpochShape, Remembered, Assemble;
      ghost var counted := CountShard(Abs(), shard);
      stats := match shard.recovery
               case Systematic => stats.(systematicShards := SatAdd(stats.systematicShards, 1))
               case Repaired => stats.(recoveredShards := SatAdd(stats.recoveredShards, 1));
      var b := shard.blockId;
      SlotKeepsShapes(counted);
      NewEpochShape(b, shard.header);
      if b in ignored || (playout.lastPlayed.Some? && shard.header.ptsSamples <= playout.lastPlayed.value) {
        return Success(ReceiveOutcome([], None));
      }
      if b !in inflight {
        MakeSlot();
      }
      if b !in inflight {
        inflight := inflight[b := NewEpoch(b, shard.header)];
        order := order + [b];
        ledger := ledger.(started := ledger.started + 1);
      }
      r := AssembleShard(shard);
    }

    method AssembleShard(shard: Shard) returns (r: Result<ReceiveOutcome, SessionError>)
      requires shard.blockId in inflight && EpochShape(inflight[shard.blockId]) && ShardInRange(shard)
      modifies this, playout
      ensures (Abs(), r) == Assemble(old(Abs()), shard)
    {
      hide EpochPush, BufferInsert;
      var b := shard.blockId;
      var assembly, pushed := PushEpoch(inflight[b], shard);
      inflight := inflight[b := assembly];
      if pushed.Failure? {
        return Failure(pushed.error);
      }
      var groups := [];
      if pushed.value.Some? {
        stats := stats.(groupsCompleted := SatAdd(stats.groupsCompleted, 1));
        groups := [pushed.value.value];
      }
      if AllFilled(assembly.groups) {
        var epoch := CompleteEpoch(b);
        return Success(ReceiveOutcome(groups, Some(epoch)));
      }
      r := Success(ReceiveOutcome(groups, None));
    }

    method CompleteEpoch(b: u32) returns (epoch: DecodedEpoch)
      requires b in inflight && AllFilled(inflight[b].groups)
      modifies this, playout
      ensures (Abs(), epoch) == Complete(old(Abs()), b)
    {
      hide BufferInsert, InsertedInto, FinishedEpoch, Without;
      epoch := FinishedEpoch(inflight[b]);
      inflight := inflight - {b};
      RetainOthers(b);
      stats := stats.(epochsCompleted := SatAdd(stats.epochsCompleted, 1));
      var inserted := playout.Insert(epoch);
      match inserted {
        case Inserted =>
        case DuplicateOrLate =>
          stats := stats.(duplicateOrLate := SatAdd(stats.duplicateOrLate, 1));
          ledger := ledger.(duplicateOrLate := ledger.duplicateOrLate + 1);
        case EvictedStale(count) =>
          stats := stats.(staleDropped := SatAdd(stats.staleDropped, count));
          ledger := ledger.(stale := ledger.stale + count);
      }
    }

    method MakeSlot()
      modifies this
      ensures Abs() == EnsureSlot(old(Abs()))
    {
      hide Remembered, EnsureSlot;
      while |inflight| >= maxInflight && order != []
        invariant EnsureSlot(Abs()) == EnsureSlot(old(Abs()))
        decreases |order|
      {
        ghost var before := Abs();
        var oldest := order[0];
        order := order[1..];
        if oldest in inflight {
          inflight := inflight - {oldest};
          stats := stats.(incompleteDropped := SatAdd(stats.incompleteDropped, 1));
          ledger := ledger.(incomplete := ledger.incomplete + 1);
          Ignore(oldest);
          assert Abs() == RememberIgnored(CountIncomplete(before.(order := before.order[1..],
                                                                  inflight := before.inflight - {oldest})), oldest);
        } else {
          assert Abs() == before.(order := before.order[1..]);
        }
        SlotRound(before);
      }
      SlotDone(Abs());
    }

    method RetainOthers(b: u32)
      modifies `order
      ensures order == Without(old(order), b)
    {
      var kept := [];
      for i := 0 to |order|
        invariant order == old(order)
        invariant Without(order, b) == kept + Without(order[i..], b)
      {
        assert order[i..][1..] == order[i + 1..];
        if order[i] != b {
          kept := kept + [order[i]];
        }
      }
      order := kept;
    }

    method Ignore(b: u32)
      modifies `ignored, `ignoredOrder, `ignoredHistory
      ensures Window(ignored, ignoredOrder, ignoredHistory)
              == Remembered(Window(old(ignored), old(ignoredOrder), old(ignoredHistory)), b, maxIgnored)
    {
      if b !in ignored {
        ignored, ignoredOrder, ignoredHistory := ignored + {b}, ignoredOrder + [b], ignoredHistory + [b];
      }
      while |ignoredOrder| > maxIgnored
        invariant Trimmed(Window(ignored, ignoredOrder, ignoredHistory), maxIgnored)
                  == Remembered(Window(old(ignored), old(ignoredOrder), old(ignoredHistory)), b, maxIgnored)
        decreases |ignoredOrder|
      {
        ignored, ignoredOrder := ignored - {ignoredOrder[0]}, ignoredOrder[1..];
      }
    }

    method Drop(b: u32)
      modifies this
      ensures Abs() == DropInflight(old(Abs()), b)
    {
      hide Remembered;
      inflight := inflight - {b};
      RetainOthers(b);
      Ignore(b);
    }

    /** The members of a set in whatever order the table yields them. */
    static method Walk(blocks: set<u32>) returns (walked: seq<u32>)
      ensures Enumerates(walked, blocks)
    {
      walked := [];
      var pending := blocks;
      while pending != {}
        invariant pending <= blocks && Enumerates(walked, blocks - pending)
        decreases pending
      {
        var b :| b in pending;
        EnumeratesAppend(walked, blocks - pending, b);
        pending, walked := pending - {b}, walked + [b];
        assert blocks - pending == blocks - (pending + {b}) + {b};
      }
      assert blocks - pending == blocks;
    }

    method TakeForPlayout(pts: u64) returns (read: Read, ghost walked: seq<u32>)
      requires Valid()
      modifies this, playout
      ensures Valid()
      ensures Enumerates(walked, InflightThrough(old(Abs()), pts))
      ensures (Abs(), read) == TakeReceiver(old(Abs()), pts, walked)
    {
      hide DropInflight, Consistent, EpochShape, ReadFrom;
      var blocks := Walk(set b | b in inflight && inflight[b].header.ptsSamples <= pts);
      walked := blocks;
      for i := 0 to |blocks|
        invariant playout.Abs() == old(playout.Abs()) && Shapes(Abs())
        invariant Abandon(Abs(), blocks[i..]) == Abandon(old(Abs()), blocks)
      {
        assert blocks[i..][1..] == blocks[i + 1..];
        DropKeepsShapes(Abs(), blocks[i]);
        Drop(blocks[i]);
        stats := stats.(incompleteDropped := SatAdd(stats.incompleteDropped, 1));
        ledger := ledger.(incomplete := ledger.incomplete + 1);
      }
      ledger := ledger.(skipped := ledger.skipped + |Before(playout.epochs, pts)|);
      read := playout.TakeForPlayout(pts);
      if read.Exact? {
        stats := stats.(exactPlayed := SatAdd(stats.exactPlayed, 1));
        ledger := ledger.(played := ledger.played + 1);
      } else {
        stats := stats.(missing := SatAdd(stats.missing, 1));
      }
    }

    method ExpireBefore(pts: u64) returns (dropped: nat, ghost walked: seq<u32>)
      requires Valid()
      modifies this, playout
      ensures Valid()
      ensures Enumerates(walked, InflightBefore(old(Abs()), pts))
      ensures (Abs(), dropped) == ExpireReceiver(old(Abs()), pts, walked)
    {
      hide DropInflight, Consistent, EpochShape, BufferExpire, ExpiredFrom;
      var buffered := playout.ExpireBefore(pts);
      var blocks := Walk(set b | b in inflight && inflight[b].header.ptsSamples < pts);
      walked := blocks;
      ghost var after := Abs();
      for i := 0 to |blocks|
        invariant playout.Abs() == after.playout && Shapes(Abs())
        invariant DropAll(Abs(), blocks[i..]) == DropAll(after, blocks)
      {
        assert blocks[i..][1..] == blocks[i + 1..];
        DropKeepsShapes(Abs(), blocks[i]);
        Drop(blocks[i]);
      }
      dropped := buffered + |blocks|;
      stats := stats.(staleDropped := SatAdd(stats.staleDropped, dropped));
      ledger := ledger.(stale := ledger.stale + dropped);
    }
  }

  lemma NewEpochShape(blockId: u32, header: ShardHeader)
    ensures EpochShape(NewEpoch(blockId, header))
  {
  }

  lemma DropKeepsShapes(s: Receiver, blockId: u32)
    requires Shapes(s)
    ensures Shapes(DropInflight(s, blockId))
  {
  }
}
