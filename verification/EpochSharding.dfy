/**
 How an epoch becomes one RaptorQ object: every channel group is cut into fragments, every fragment
 sits behind a self-describing header in one source symbol, and the symbols follow each other in
 caller group order.
 */
module EpochSharding {
  import opened Arithmetic
  import opened AudioTypes
  import opened ByteCodec
  import opened Datagram
  import opened FecDecoding
  import opened Geometry
  import opened MachineInts
  import opened RaptorQ
  import opened ShardHeaders
  import opened Wrappers

  /** `validate_group` and the payload length check */
  function ValidateGroup(group: Group): Result<(), AudioError> {
    if group.channelCount == 0 then Failure(InvalidChannelCount(group.groupId))
    else if group.payloadKind.Pcm? && group.sampleFormat.Unspecified? then Failure(PcmFormatRequired(group.groupId))
    else if group.payloadKind.Flac? && group.sampleFormat.Unspecified? then Failure(FlacFormatRequired(group.groupId))
    else if |group.payload| > U32_MAX then Failure(GroupPayloadTooLong(group.groupId, |group.payload|))
    else Success(())
  }

  /** An epoch and the fragment size it is cut with. */
  datatype Cut = Cut(epoch: Epoch, fragment: nat) {
    ghost predicate Valid() {
      && 0 < fragment <= U16_MAX - SHARD_HEADER_LEN
      && 0 < |epoch.groups| <= U16_MAX
      && epoch.frameCount > 0 && epoch.sampleRate > 0
      && (forall g | 0 <= g < |epoch.groups| :: ValidateGroup(epoch.groups[g]).Success?)
      && Shards() <= U16_MAX
    }

    /** Valid, and within the symbols one RaptorQ block can have. */
    ghost predicate Encodable() {
      Valid() && Shards() <= MAX_SOURCE_SYMBOLS_PER_BLOCK
    }

    function SymbolSize(): nat {
      SHARD_HEADER_LEN + fragment
    }

    /** K: the number of source symbols. */
    function Shards(): nat
      requires fragment > 0
    {
      SymbolCount(PayloadSizes(epoch.groups), fragment)
    }

    /** Fragments of group `g`; an empty group still has one. */
    function Fragments(g: nat): nat
      requires fragment > 0 && g < |epoch.groups|
    {
      CeilDiv(Max(|epoch.groups[g].payload|, 1), fragment)
    }

    /** Source index of the first shard of group `g`. */
    function FirstShard(g: nat): nat
      requires fragment > 0 && g <= |epoch.groups|
    {
      SymbolCount(PayloadSizes(epoch.groups)[..g], fragment)
    }
  }

  /** Bytes of fragment `j` of a payload. */
  function Fragment(payload: Bytes, size: nat, j: nat): (fragment: Bytes)
    ensures |fragment| <= size
  {
    if j * size < |payload| then payload[j * size..Min(j * size + size, |payload|)] else []
  }

  // ----- slots: which fragment of which group a source index carries

  datatype Slot = Slot(group: nat, fragment: nat)

  function GroupSlots(g: nat, count: nat): (slots: seq<Slot>)
    ensures |slots| == count
  {
    seq(count, j requires 0 <= j < count => Slot(g, j))
  }

  /** Slots of the first `n` groups. */
  function Slots(c: Cut, n: nat): seq<Slot>
    requires c.fragment > 0 && n <= |c.epoch.groups|
  {
    if n == 0 then [] else Slots(c, n - 1) + GroupSlots(n - 1, c.Fragments(n - 1))
  }

  lemma {:induction false} CountAppend(sizes: seq<nat>, f: nat, last: nat)
    requires f > 0
    ensures SymbolCount(sizes + [last], f) == SymbolCount(sizes, f) + CeilDiv(last, f)
  {
    if sizes == [] {
      assert sizes + [last] == [last] && [last][1..] == [];
      assert SymbolCount([last], f) == CeilDiv(last, f) + SymbolCount([], f);
    } else {
      assert (sizes + [last])[1..] == sizes[1..] + [last];
      CountAppend(sizes[1..], f, last);
    }
  }

  lemma FirstShardNext(c: Cut, g: nat)
    requires c.fragment > 0 && g < |c.epoch.groups|
    ensures c.FirstShard(g + 1) == c.FirstShard(g) + c.Fragments(g)
    ensures c.Fragments(g) > 0
  {
    var sizes := PayloadSizes(c.epoch.groups);
    assert sizes[..g + 1] == sizes[..g] + [sizes[g]];
    CountAppend(sizes[..g], c.fragment, sizes[g]);
    CeilDivCovers(sizes[g], c.fragment);
  }

  lemma AllShards(c: Cut)
    requires c.fragment > 0
    ensures c.FirstShard(|c.epoch.groups|) == c.Shards() && c.FirstShard(0) == 0
  {
    var sizes := PayloadSizes(c.epoch.groups);
    assert sizes[..|sizes|] == sizes;
  }

  /** Every slot of every group has its own source index, in order, from 0 on without gaps. */
  lemma {:induction false} SlotsNumbered(c: Cut, n: nat)
    requires c.fragment > 0 && n <= |c.epoch.groups|
    ensures |Slots(c, n)| == c.FirstShard(n)
    ensures forall i | 0 <= i < |Slots(c, n)| ::
              var s := Slots(c, n)[i];
              s.group < n && s.fragment < c.Fragments(s.group) && i == c.FirstShard(s.group) + s.fragment
  {
    if n == 0 {
      AllShards(c);
    } else {
      SlotsNumbered(c, n - 1);
      FirstShardNext(c, n - 1);
    }
  }

  lemma {:induction false} FirstShardMonotone(c: Cut, g: nat, n: nat)
    requires c.fragment > 0 && g <= n <= |c.epoch.groups|
    ensures c.FirstShard(g) <= c.FirstShard(n)
    decreases n - g
  {
    if g < n {
      FirstShardNext(c, g);
      FirstShardMonotone(c, g + 1, n);
    }
  }

  /** The slot of fragment `j` of group `g` is found at its source index. */
  lemma {:induction false} SlotFound(c: Cut, n: nat, g: nat, j: nat)
    requires c.fragment > 0 && g < n <= |c.epoch.groups| && j < c.Fragments(g)
    ensures c.FirstShard(g) + j < |Slots(c, n)|
    ensures Slots(c, n)[c.FirstShard(g) + j] == Slot(g, j)
  {
    SlotsNumbered(c, n - 1);
    SlotsNumbered(c, n);
    FirstShardNext(c, g);
    FirstShardMonotone(c, g + 1, n);
    if g < n - 1 {
      SlotFound(c, n - 1, g, j);
    }
  }

  function SlotAt(c: Cut, i: nat): Slot
    requires c.Valid() && i < c.Shards()
  {
    SlotsNumbered(c, |c.epoch.groups|);
    AllShards(c);
    Slots(c, |c.epoch.groups|)[i]
  }

  lemma SlotAtIs(c: Cut, i: nat)
    requires c.Valid() && i < c.Shards()
    ensures var s := SlotAt(c, i);
            && s.group < |c.epoch.groups| && s.fragment < c.Fragments(s.group)
            && i == c.FirstShard(s.group) + s.fragment
  {
    SlotsNumbered(c, |c.epoch.groups|);
    AllShards(c);
  }

  lemma SlotAtFound(c: Cut, g: nat, j: nat)
    requires c.Valid() && g < |c.epoch.groups| && j < c.Fragments(g)
    ensures c.FirstShard(g) + j < c.Shards()
    ensures SlotAt(c, c.FirstShard(g) + j) == Slot(g, j)
  {
    SlotFound(c, |c.epoch.groups|, g, j);
    SlotsNumbered(c, |c.epoch.groups|);
    AllShards(c);
  }

  // ----- fragments tile their payload

  function JoinedFragments(payload: Bytes, size: nat, n: nat): Bytes {
    if n == 0 then [] else JoinedFragments(payload, size, n - 1) + Fragment(payload, size, n - 1)
  }

  lemma {:induction false} JoinedIsPrefix(payload: Bytes, size: nat, n: nat)
    ensures JoinedFragments(payload, size, n) == payload[..Min(n * size, |payload|)]
  {
    if n > 0 {
      JoinedIsPrefix(payload, size, n - 1);
      assert n * size == (n - 1) * size + size;
    }
  }

  /** Joined in order, the fragments of a group are its payload, the empty group included. */
  lemma FragmentsTile(c: Cut, g: nat)
    requires c.fragment > 0 && g < |c.epoch.groups|
    ensures JoinedFragments(c.epoch.groups[g].payload, c.fragment, c.Fragments(g)) == c.epoch.groups[g].payload
  {
    var payload := c.epoch.groups[g].payload;
    JoinedIsPrefix(payload, c.fragment, c.Fragments(g));
    CeilDivCovers(Max(|payload|, 1), c.fragment);
  }

  /** Fragment `j` starts inside the payload, or is the single empty fragment. */
  lemma FragmentWithin(c: Cut, g: nat, j: nat)
    requires c.fragment > 0 && g < |c.epoch.groups| && j < c.Fragments(g)
    ensures var len := |c.epoch.groups[g].payload|;
            var part := Fragment(c.epoch.groups[g].payload, c.fragment, j);
            && j * c.fragment + |part| <= len
            && (len > 0 ==> j * c.fragment < len && |part| > 0)
            && (len == 0 ==> j == 0)
            && j * c.fragment + |part| == (if j + 1 == c.Fragments(g) then len else (j + 1) * c.fragment)
  {
    var size := Max(|c.epoch.groups[g].payload|, 1);
    CeilDivCovers(size, c.fragment);
    MulAtMost(j, c.Fragments(g) - 1, c.fragment);
    assert (j + 1) * c.fragment == j * c.fragment + c.fragment;
    if j + 1 < c.Fragments(g) {
      MulAtMost(j + 1, c.Fragments(g) - 1, c.fragment);
    }
    if j >= 1 {
      MulAtMost(1, j, c.fragment);
    }
  }

  // ----- symbols

  function ShardOf(c: Cut, g: nat, j: nat): ShardHeader
    requires c.Valid() && g < |c.epoch.groups| && j < c.Fragments(g)
  {
    var e, group := c.epoch, c.epoch.groups[g];
    ShardFieldsFit(c, g, j);
    ShardHeader(group.payloadKind, group.sampleFormat, group.flags, e.sessionId, e.configGeneration, e.sampleRate,
                e.frameCount, e.epochId, e.ptsSamples, group.groupId, g, |e.groups|, group.channelStart,
                group.channelCount, j, c.Fragments(g), c.FirstShard(g) + j, c.Shards(),
                |Fragment(group.payload, c.fragment, j)|, j * c.fragment, |group.payload|)
  }

  lemma ShardFieldsFit(c: Cut, g: nat, j: nat)
    requires c.Valid() && g < |c.epoch.groups| && j < c.Fragments(g)
    ensures 0 <= j * c.fragment <= |c.epoch.groups[g].payload| <= U32_MAX
    ensures j < c.Fragments(g) <= U16_MAX && c.FirstShard(g) + j < c.Shards() <= U16_MAX
  {
    FragmentWithin(c, g, j);
    SlotAtFound(c, g, j);
    FragmentsBelow(c, g);
    assert ValidateGroup(c.epoch.groups[g]).Success?;
  }

  lemma FragmentsBelow(c: Cut, g: nat)
    requires c.Valid() && g < |c.epoch.groups|
    ensures c.Fragments(g) <= c.Shards()
  {
    PartOfCount(PayloadSizes(c.epoch.groups), c.fragment, g);
  }

  lemma ShardValid(c: Cut, g: nat, j: nat)
    requires c.Valid() && g < |c.epoch.groups| && j < c.Fragments(g)
    ensures ShardOf(c, g, j).Validate(c.SymbolSize()).Success?
  {
    FragmentWithin(c, g, j);
    SlotAtFound(c, g, j);
    FragmentsBelow(c, g);
    assert ValidateGroup(c.epoch.groups[g]).Success?;
  }

  function SymbolOf(c: Cut, g: nat, j: nat): (symbol: Bytes)
    requires c.Valid() && g < |c.epoch.groups| && j < c.Fragments(g)
    ensures |symbol| == c.SymbolSize()
  {
    Symbol(ShardOf(c, g, j), Fragment(c.epoch.groups[g].payload, c.fragment, j), c.SymbolSize())
  }

  /** The source symbol with index `i`. */
  function SymbolAt(c: Cut, i: nat): (symbol: Bytes)
    requires c.Valid() && i < c.Shards()
    ensures |symbol| == c.SymbolSize()
  {
    SlotAtIs(c, i);
    SymbolOf(c, SlotAt(c, i).group, SlotAt(c, i).fragment)
  }

  function ShardAt(c: Cut, blockId: u32, i: nat, recovery: Recovery): Shard
    requires c.Valid() && i < c.Shards()
  {
    SlotAtIs(c, i);
    var s := SlotAt(c, i);
    Shard(blockId, ShardOf(c, s.group, s.fragment), recovery,
          Fragment(c.epoch.groups[s.group].payload, c.fragment, s.fragment))
  }

  /** Decoding source symbol `i` gives back exactly the shard that was put in. */
  lemma SymbolDecodes(c: Cut, blockId: u32, i: nat, recovery: Recovery)
    requires c.Valid() && i < c.Shards()
    ensures DecodeSymbol(blockId, SymbolAt(c, i), c.Shards(), i, recovery) == Success(ShardAt(c, blockId, i, recovery))
  {
    hide DecodeSymbol, Symbol, SlotAt;
    SlotAtIs(c, i);
    var s := SlotAt(c, i);
    ShardValid(c, s.group, s.fragment);
    SymbolRoundTrip(blockId, ShardOf(c, s.group, s.fragment),
                    Fragment(c.epoch.groups[s.group].payload, c.fragment, s.fragment), c.SymbolSize(), recovery);
  }

  // ----- the object

  /** The first `n` source symbols, one after the other. */
  function ObjectUpTo(c: Cut, n: nat): Bytes
    requires c.Valid() && n <= c.Shards()
  {
    if n == 0 then [] else ObjectUpTo(c, n - 1) + SymbolAt(c, n - 1)
  }

  function ObjectOf(c: Cut): Bytes
    requires c.Valid()
  {
    ObjectUpTo(c, c.Shards())
  }

  lemma {:induction false} ObjectLength(c: Cut, n: nat)
    requires c.Valid() && n <= c.Shards()
    ensures |ObjectUpTo(c, n)| == n * c.SymbolSize()
  {
    hide SymbolAt;
    if n > 0 {
      ObjectLength(c, n - 1);
      assert n * c.SymbolSize() == (n - 1) * c.SymbolSize() + c.SymbolSize();
    }
  }

  lemma {:induction false} ObjectChunk(c: Cut, n: nat, i: nat)
    requires c.Valid() && i < n <= c.Shards()
    ensures ObjectUpTo(c, i) + SymbolAt(c, i) <= ObjectUpTo(c, n)
  {
    hide SymbolAt;
    if i < n - 1 {
      ObjectChunk(c, n - 1, i);
    }
  }

  /** The object consists of K whole symbols and fits the header's length field. */
  lemma ObjectSize(c: Cut)
    requires c.Valid()
    ensures 0 < |ObjectOf(c)| == c.Shards() * c.SymbolSize() <= U32_MAX
    ensures CeilDiv(|ObjectOf(c)|, c.SymbolSize()) == c.Shards() > 0
  {
    var k, t := c.Shards(), c.SymbolSize();
    ObjectLength(c, k);
    CeilDivOfMultiple(k, t);
    FirstShardNext(c, 0);
    AllShards(c);
    FirstShardMonotone(c, 1, |c.epoch.groups|);
    MulAtMost(1, k, t);
    MulAtMost(k, U16_MAX, t);
    MulAtMost(t, U16_MAX, U16_MAX);
  }

  /** An encodable epoch is a valid one-block source with K symbols. */
  lemma ObjectIsSource(c: Cut)
    requires c.Encodable()
    ensures Source(ObjectOf(c), c.SymbolSize()).Valid()
    ensures Source(ObjectOf(c), c.SymbolSize()).SourceSymbols() == c.Shards()
  {
    ObjectSize(c);
  }

  lemma SourceSymbolIs(c: Cut, i: nat)
    requires c.Valid() && i < c.Shards()
    ensures i * c.SymbolSize() <= |ObjectOf(c)|
    ensures SourceSymbol(ObjectOf(c), c.SymbolSize(), i) == SymbolAt(c, i)
  {
    hide SymbolAt, ObjectUpTo;
    var before, symbol, all := ObjectUpTo(c, i), SymbolAt(c, i), ObjectOf(c);
    ObjectChunk(c, c.Shards(), i);
    ObjectLength(c, i);
    SliceAfterPrefix(all + Zeros(c.SymbolSize()), before, symbol);
  }

  lemma SliceAfterPrefix(all: Bytes, before: Bytes, piece: Bytes)
    requires before + piece <= all
    ensures all[|before|..|before| + |piece|] == piece
  {
    assert all[|before|..|before| + |piece|] == (before + piece)[|before|..];
  }
}
