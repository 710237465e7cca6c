/**
 How the datagrams of an encoded frame are laid out in blocks, the role of each, and the two orders
 in which they can be sent.
 */
module MediaLayout {
  import opened ByteCodec
  import opened MachineInts
  import opened Wrappers

  datatype Role = SourceRole | RepairRole

  datatype MediaBlock = MediaBlock(
    blockId: u32, fragmentIndex: u16, sourceSymbols: u16, repairSymbols: u32, firstDatagram: u64, datagramCount: u64,
    payloadLen: u64)
  {
    /** End of `source_datagram_indices`, which is where the repair indices start. */
    function SourceEnd(): u64 {
      Min(SatAdd(firstDatagram, sourceSymbols), SatAdd(firstDatagram, datagramCount))
    }

    /** `source_datagram_indices` and `repair_datagram_indices`, as half-open ranges */
    function Range(role: Role): (u64, u64) {
      match role
      case SourceRole => (firstDatagram, SourceEnd())
      case RepairRole => (SourceEnd(), SatAdd(firstDatagram, datagramCount))
    }

    predicate InRange(role: Role, index: nat) {
      Range(role).0 <= index < Range(role).1
    }

    /** `EncodedMediaBlock::datagram_role` */
    function RoleOf(index: nat): Option<Role> {
      if InRange(SourceRole, index) then Some(SourceRole)
      else if InRange(RepairRole, index) then Some(RepairRole)
      else None
    }
  }

  datatype Send = Send(datagramIndex: u64, blockId: u32, fragmentIndex: u16, role: Role)

  datatype Order = Encoded | SourceFirst

  /** `EncodedMediaFrame::datagram_role` */
  function DatagramRole(blocks: seq<MediaBlock>, index: nat): Option<Role> {
    if blocks == [] then None
    else if blocks[0].RoleOf(index).Some? then blocks[0].RoleOf(index)
    else DatagramRole(blocks[1..], index)
  }

  /** The blocks follow one another without gaps from datagram `from` on, source symbols first. */
  ghost predicate LaidOut(blocks: seq<MediaBlock>, from: nat) {
    blocks == []
    || (blocks[0].firstDatagram == from
        && blocks[0].datagramCount == blocks[0].sourceSymbols + blocks[0].repairSymbols
        && LaidOut(blocks[1..], from + blocks[0].datagramCount))
  }

  function Total(blocks: seq<MediaBlock>): nat {
    if blocks == [] then 0 else blocks[0].datagramCount + Total(blocks[1..])
  }

  // ----- the send orders

  function EntriesFrom(block: MediaBlock, role: Role, from: u64): seq<Send>
    requires from <= block.Range(role).1
    decreases block.Range(role).1 - from
  {
    if from == block.Range(role).1 then []
    else [Send(from, block.blockId, block.fragmentIndex, role)] + EntriesFrom(block, role, from + 1)
  }

  /** What `push_media_datagram_send_entries` appends. */
  function Entries(block: MediaBlock, role: Role): seq<Send> {
    EntriesFrom(block, role, block.Range(role).0)
  }

  function EntriesOf(blocks: seq<MediaBlock>, role: Role): seq<Send> {
    if blocks == [] then [] else Entries(blocks[0], role) + EntriesOf(blocks[1..], role)
  }

  function BlockByBlock(blocks: seq<MediaBlock>): seq<Send> {
    if blocks == [] then []
    else Entries(blocks[0], SourceRole) + Entries(blocks[0], RepairRole) + BlockByBlock(blocks[1..])
  }

  /** `datagram_send_plan` */
  function SendPlan(blocks: seq<MediaBlock>, order: Order): seq<Send> {
    match order
    case Encoded => BlockByBlock(blocks)
    case SourceFirst => EntriesOf(blocks, SourceRole) + EntriesOf(blocks, RepairRole)
  }

  lemma {:induction false} EntriesOfAppend(blocks: seq<MediaBlock>, block: MediaBlock, role: Role)
    ensures EntriesOf(blocks + [block], role) == EntriesOf(blocks, role) + Entries(block, role)
  {
    hide Entries;
    if blocks == [] {
      assert blocks + [block] == [block] && [block][1..] == [];
    } else {
      assert (blocks + [block])[1..] == blocks[1..] + [block];
      EntriesOfAppend(blocks[1..], block, role);
    }
  }

  lemma {:induction false} BlockByBlockAppend(blocks: seq<MediaBlock>, block: MediaBlock)
    ensures BlockByBlock(blocks + [block])
            == BlockByBlock(blocks) + (Entries(block, SourceRole) + Entries(block, RepairRole))
  {
    hide Entries;
    if blocks == [] {
      assert blocks + [block] == [block] && [block][1..] == [];
    } else {
      assert (blocks + [block])[1..] == blocks[1..] + [block];
      BlockByBlockAppend(blocks[1..], block);
    }
  }

  /** Appends one entry per index of the range, in order. */
  method PushEntries(plan: seq<Send>, block: MediaBlock, role: Role) returns (plan': seq<Send>)
    ensures plan' == plan + Entries(block, role)
  {
    plan' := plan;
    var i := block.Range(role).0;
    while i < block.Range(role).1
      invariant block.Range(role).0 <= i <= block.Range(role).1
      invariant plan + Entries(block, role) == plan' + EntriesFrom(block, role, i)
    {
      plan' := plan' + [Send(i, block.blockId, block.fragmentIndex, role)];
      i := i + 1;
    }
  }

  method ComputeSendPlan(blocks: seq<MediaBlock>, order: Order) returns (plan: seq<Send>)
    ensures plan == SendPlan(blocks, order)
  {
    hide Entries;
    plan := [];
    assert blocks[..|blocks|] == blocks;
    if order == Encoded {
      for i := 0 to |blocks|
        invariant plan == BlockByBlock(blocks[..i])
      {
        assert blocks[..i + 1] == blocks[..i] + [blocks[i]];
        BlockByBlockAppend(blocks[..i], blocks[i]);
        plan := PushEntries(plan, blocks[i], SourceRole);
        plan := PushEntries(plan, blocks[i], RepairRole);
      }
    } else {
      for i := 0 to |blocks|
        invariant plan == EntriesOf(blocks[..i], SourceRole)
      {
        assert blocks[..i + 1] == blocks[..i] + [blocks[i]];
        EntriesOfAppend(blocks[..i], blocks[i], SourceRole);
        plan := PushEntries(plan, blocks[i], SourceRole);
      }
      for i := 0 to |blocks|
        invariant plan == EntriesOf(blocks, SourceRole) + EntriesOf(blocks[..i], RepairRole)
      {
        assert blocks[..i + 1] == blocks[..i] + [blocks[i]];
        EntriesOfAppend(blocks[..i], blocks[i], RepairRole);
        plan := PushEntries(plan, blocks[i], RepairRole);
      }
    }
  }

  // ----- what the orders are

  lemma {:induction false} EntriesFromAre(block: MediaBlock, role: Role, from: u64)
    requires from <= block.Range(role).1
    ensures var entries := EntriesFrom(block, role, from);
            && |entries| == block.Range(role).1 - from
            && forall i | 0 <= i < |entries| :: entries[i] == Send(from + i, block.blockId, block.fragmentIndex, role)
    decreases block.Range(role).1 - from
  {
    if from < block.Range(role).1 {
      EntriesFromAre(block, role, from + 1);
    }
  }

  /** A laid-out block: `sourceSymbols` source indices, then `repairSymbols` repair indices. */
  lemma BlockRanges(block: MediaBlock)
    requires block.datagramCount == block.sourceSymbols + block.repairSymbols
    requires block.firstDatagram + block.datagramCount <= U64_MAX
    ensures block.Range(SourceRole) == (block.firstDatagram, block.firstDatagram + block.sourceSymbols)
    ensures block.Range(RepairRole)
            == (block.firstDatagram + block.sourceSymbols, block.firstDatagram + block.datagramCount)
  {
  }

  /**
   In a laid-out frame every datagram has exactly one block and role, and the encoded order is the
   identity: entry `d` is datagram `from + d` with that role.
   */
  lemma {:induction false} EncodedOrderIsIdentity(blocks: seq<MediaBlock>, from: nat)
    requires LaidOut(blocks, from) && from + Total(blocks) <= U64_MAX
    ensures |BlockByBlock(blocks)| == Total(blocks)
    ensures forall d | 0 <= d < Total(blocks) ::
              && BlockByBlock(blocks)[d].datagramIndex == from + d
              && DatagramRole(blocks, from + d) == Some(BlockByBlock(blocks)[d].role)
    ensures forall index: nat | index < from || from + Total(blocks) <= index :: DatagramRole(blocks, index) == None
  {
    if blocks != [] {
      var b := blocks[0];
      BlockRanges(b);
      EntriesFromAre(b, SourceRole, b.Range(SourceRole).0);
      EntriesFromAre(b, RepairRole, b.Range(RepairRole).0);
      EncodedOrderIsIdentity(blocks[1..], from + b.datagramCount);
      hide EntriesFrom;
      forall d | b.datagramCount <= d < Total(blocks)
        ensures DatagramRole(blocks, from + d) == DatagramRole(blocks[1..], from + d)
        ensures BlockByBlock(blocks)[d] == BlockByBlock(blocks[1..])[d - b.datagramCount]
      {
      }
    }
  }

  lemma {:induction false} SameEntries(blocks: seq<MediaBlock>)
    ensures multiset(EntriesOf(blocks, SourceRole)) + multiset(EntriesOf(blocks, RepairRole))
            == multiset(BlockByBlock(blocks))
  {
    hide Entries;
    if blocks != [] {
      SameEntries(blocks[1..]);
    }
  }

  /** One role's entries, in increasing index order. */
  lemma {:induction false} EntriesIncrease(blocks: seq<MediaBlock>, role: Role, from: nat)
    requires LaidOut(blocks, from) && from + Total(blocks) <= U64_MAX
    ensures forall i | 0 <= i < |EntriesOf(blocks, role)| ::
              EntriesOf(blocks, role)[i].role == role && from <= EntriesOf(blocks, role)[i].datagramIndex
    ensures forall i, j | 0 <= i < j < |EntriesOf(blocks, role)| ::
              EntriesOf(blocks, role)[i].datagramIndex < EntriesOf(blocks, role)[j].datagramIndex
  {
    if blocks != [] {
      var b := blocks[0];
      BlockRanges(b);
      EntriesFromAre(b, role, b.Range(role).0);
      EntriesIncrease(blocks[1..], role, from + b.datagramCount);
      hide EntriesFrom;
    }
  }

  /** Sources before repairs, and each role in increasing index order. */
  ghost predicate SourcesFirst(plan: seq<Send>) {
    && (forall i, j | 0 <= i < j < |plan| && plan[i].role.RepairRole? :: plan[j].role.RepairRole?)
    && (forall i, j | 0 <= i < j < |plan| && plan[i].role == plan[j].role :: plan[i].datagramIndex < plan[j].datagramIndex)
  }

  ghost predicate Increasing(entries: seq<Send>, role: Role) {
    && (forall i | 0 <= i < |entries| :: entries[i].role == role)
    && (forall i, j | 0 <= i < j < |entries| :: entries[i].datagramIndex < entries[j].datagramIndex)
  }

  lemma JoinRoles(sources: seq<Send>, repairs: seq<Send>)
    requires Increasing(sources, SourceRole) && Increasing(repairs, RepairRole)
    ensures SourcesFirst(sources + repairs)
  {
  }

  /**
   The source-first order of a laid-out frame is a permutation of the encoded order in which no
   repair precedes a source and each role keeps its encoded order.
   */
  lemma SourceFirstPermutes(blocks: seq<MediaBlock>)
    requires LaidOut(blocks, 0) && Total(blocks) <= U64_MAX
    ensures multiset(SendPlan(blocks, SourceFirst)) == multiset(SendPlan(blocks, Encoded))
    ensures SourcesFirst(SendPlan(blocks, SourceFirst))
  {
    hide EntriesOf, BlockByBlock, SourcesFirst;
    SameEntries(blocks);
    EntriesIncrease(blocks, SourceRole, 0);
    EntriesIncrease(blocks, RepairRole, 0);
    JoinRoles(EntriesOf(blocks, SourceRole), EntriesOf(blocks, RepairRole));
  }

  // ----- frame statistics

  datatype FrameStats = FrameStats(
    blockCount: nat, sourceDatagrams: nat, repairDatagrams: nat, wireDatagrams: nat, protectedBytes: nat, wireBytes: nat,
    recoverableSourceDatagrams: nat, maxBlockDatagrams: nat)

  function Sum<T>(f: T -> nat, s: seq<T>): nat {
    if s == [] then 0 else f(s[0]) + Sum(f, s[1..])
  }

  function Largest(blocks: seq<MediaBlock>): nat {
    if blocks == [] then 0 else Max(blocks[0].datagramCount, Largest(blocks[1..]))
  }

  const SOURCES := (b: MediaBlock) => b.sourceSymbols as nat
  const REPAIRS := (b: MediaBlock) => b.repairSymbols as nat
  const PROTECTED := (b: MediaBlock) => b.payloadLen as nat
  const LENGTH := (d: Bytes) => |d|

  /** `EncodedMediaFrame::stats` */
  function StatsOf(blocks: seq<MediaBlock>, datagrams: seq<Bytes>): FrameStats {
    FrameStats(|blocks|, Sum(SOURCES, blocks), Sum(REPAIRS, blocks), |datagrams|, Sum(PROTECTED, blocks),
               Sum(LENGTH, datagrams), Sum(REPAIRS, blocks), Largest(blocks))
  }

  /** In a laid-out frame the roles add up to the datagrams, and no block has more of them than there are. */
  lemma {:induction false} StatsAddUp(blocks: seq<MediaBlock>, from: nat)
    requires LaidOut(blocks, from)
    ensures Sum(SOURCES, blocks) + Sum(REPAIRS, blocks) == Total(blocks)
    ensures Largest(blocks) <= Total(blocks)
  {
    if blocks != [] {
      StatsAddUp(blocks[1..], from + blocks[0].datagramCount);
    }
  }

  /** The counts are those of the entries of either role in the send orders. */
  lemma {:induction false} StatsCountRoles(blocks: seq<MediaBlock>, from: nat)
    requires LaidOut(blocks, from) && from + Total(blocks) <= U64_MAX
    ensures |EntriesOf(blocks, SourceRole)| == Sum(SOURCES, blocks)
    ensures |EntriesOf(blocks, RepairRole)| == Sum(REPAIRS, blocks)
  {
    if blocks != [] {
      var b := blocks[0];
      BlockRanges(b);
      EntriesFromAre(b, SourceRole, b.Range(SourceRole).0);
      EntriesFromAre(b, RepairRole, b.Range(RepairRole).0);
      StatsCountRoles(blocks[1..], from + b.datagramCount);
      hide EntriesFrom;
    }
  }

  lemma {:induction false} LargestIs(blocks: seq<MediaBlock>)
    ensures forall b | b in blocks :: b.datagramCount <= Largest(blocks)
    ensures blocks != [] ==> exists b :: b in blocks && b.datagramCount == Largest(blocks)
  {
    if blocks != [] {
      LargestIs(blocks[1..]);
      assert blocks == [blocks[0]] + blocks[1..];
      assert blocks[0] in blocks;
      if blocks[1..] != [] {
        var b :| b in blocks[1..] && b.datagramCount == Largest(blocks[1..]);
        assert b in blocks;
      }
    }
  }

  lemma {:induction false} SameLengths(datagrams: seq<Bytes>, length: nat)
    requires forall n | 0 <= n < |datagrams| :: |datagrams[n]| == length
    ensures Sum(LENGTH, datagrams) == |datagrams| * length
  {
    if datagrams != [] {
      SameLengths(datagrams[1..], length);
    }
  }

  /** Every entry names the block its datagram is in. */
  lemma {:induction false} EntriesNameBlocks(blocks: seq<MediaBlock>, from: nat)
    requires LaidOut(blocks, from) && from + Total(blocks) <= U64_MAX
    ensures forall entry | entry in BlockByBlock(blocks) :: exists b :: b in blocks && Names(entry, b)
  {
    if blocks != [] {
      var b := blocks[0];
      BlockRanges(b);
      EntriesFromAre(b, SourceRole, b.Range(SourceRole).0);
      EntriesFromAre(b, RepairRole, b.Range(RepairRole).0);
      EntriesNameBlocks(blocks[1..], from + b.datagramCount);
      hide EntriesFrom, BlockByBlock;
      assert b in blocks;
      forall entry | entry in BlockByBlock(blocks) ensures exists b :: b in blocks && Names(entry, b) {
        FirstOrLater(blocks, entry);
        if entry in BlockByBlock(blocks[1..]) {
          var c :| c in blocks[1..] && Names(entry, c);
          assert c in blocks;
        } else {
          assert Names(entry, b);
        }
      }
    }
  }

  predicate Names(entry: Send, b: MediaBlock) {
    && entry.blockId == b.blockId && entry.fragmentIndex == b.fragmentIndex
    && b.firstDatagram <= entry.datagramIndex < b.firstDatagram + b.datagramCount
    && (entry.role.SourceRole? <==> entry.datagramIndex < b.firstDatagram + b.sourceSymbols)
  }

  lemma FirstOrLater(blocks: seq<MediaBlock>, entry: Send)
    requires blocks != [] && entry in BlockByBlock(blocks)
    ensures || entry in Entries(blocks[0], SourceRole) || entry in Entries(blocks[0], RepairRole)
            || entry in BlockByBlock(blocks[1..])
  {
    hide Entries;
  }
}
