/** Assemblies fed with the shards of one epoch: what they hold is what was sent, and all of it once filled. */
module ExactAssembly {
  import opened Arithmetic
  import opened Assembly
  import opened AudioTypes
  import opened Collections
  import opened EpochSharding
  import opened MachineInts
  import opened ShardHeaders
  import opened Wrappers

  /** Group `g` of an epoch as the receiver must return it; only the recovery count is open. */
  function ExpectedGroup(epoch: Epoch, g: nat, recovered: u16): DecodedGroup
    requires g < |epoch.groups| <= U16_MAX
  {
    var group := epoch.groups[g];
    DecodedGroup(epoch.sessionId, epoch.configGeneration, epoch.epochId, epoch.ptsSamples, epoch.sampleRate,
                 epoch.frameCount, |epoch.groups|, group.groupId, g, group.channelStart, group.channelCount,
                 group.payloadKind, group.sampleFormat, group.flags, group.payload, recovered)
  }

  ghost predicate IsGroup(epoch: Epoch, g: nat, decoded: DecodedGroup) {
    g < |epoch.groups| <= U16_MAX && decoded == ExpectedGroup(epoch, g, decoded.recoveredFragments)
  }

  /** The epoch that was sent: every field, every group in caller order, every byte. */
  ghost predicate IsEpoch(epoch: Epoch, decoded: DecodedEpoch) {
    && decoded.sessionId == epoch.sessionId && decoded.configGeneration == epoch.configGeneration
    && decoded.epochId == epoch.epochId && decoded.ptsSamples == epoch.ptsSamples
    && decoded.sampleRate == epoch.sampleRate && decoded.frameCount == epoch.frameCount
    && |decoded.groups| == |epoch.groups|
    && forall g | 0 <= g < |epoch.groups| :: IsGroup(epoch, g, decoded.groups[g])
  }

  // ----- groups

  function PieceOf(c: Cut, g: nat, j: nat): Piece
    requires c.Valid() && g < |c.epoch.groups| && j < c.Fragments(g)
  {
    ShardFieldsFit(c, g, j);
    Piece(j * c.fragment, Fragment(c.epoch.groups[g].payload, c.fragment, j))
  }

  ghost predicate ExactPiece(c: Cut, g: nat, j: nat, piece: Option<Piece>)
    requires c.Valid() && g < |c.epoch.groups| && j < c.Fragments(g)
  {
    piece.Some? ==> piece.value == PieceOf(c, g, j)
  }

  /** The group's metadata and every filled slot are as sent. */
  ghost predicate ExactGroup(c: Cut, b: u32, g: nat, a: GroupAssembly)
    requires c.Valid()
  {
    && g < |c.epoch.groups|
    && a.blockId == b
    && (exists j :: 0 <= j < c.Fragments(g) && a.header == ShardOf(c, g, j))
    && |a.pieces| == c.Fragments(g)
    && forall j | 0 <= j < |a.pieces| :: ExactPiece(c, g, j, a.pieces[j])
  }

  lemma SameGroupFields(c: Cut, g: nat, i: nat, j: nat)
    requires c.Valid() && g < |c.epoch.groups| && i < c.Fragments(g) && j < c.Fragments(g)
    ensures GroupMismatch(ShardOf(c, g, i), ShardOf(c, g, j)).None?
  {
    hide Fragment;
  }

  lemma FinishedIs(c: Cut, g: nat, j: nat, recovered: u16)
    requires c.Valid() && g < |c.epoch.groups| && j < c.Fragments(g)
    ensures Finished(ShardOf(c, g, j), c.epoch.groups[g].payload, recovered) == ExpectedGroup(c.epoch, g, recovered)
  {
    hide Fragment;
  }

  /** The first `n` pieces join to the first `n` fragments. */
  lemma {:induction false} PiecesJoin(c: Cut, g: nat, pieces: seq<Piece>, n: nat)
    requires c.Valid() && g < |c.epoch.groups| && |pieces| == c.Fragments(g) && n <= |pieces|
    requires forall j | 0 <= j < |pieces| :: pieces[j] == PieceOf(c, g, j)
    ensures JoinPieces(JoinedFragments(c.epoch.groups[g].payload, c.fragment, n), pieces[n..])
            == Some(c.epoch.groups[g].payload)
    decreases |pieces| - n
  {
    hide Fragment, Cut.Fragments;
    var payload := c.epoch.groups[g].payload;
    if n == |pieces| {
      FragmentsTile(c, g);
    } else {
      OffsetIsLength(c, g, n);
      PiecesJoin(c, g, pieces, n + 1);
      assert pieces[n..][1..] == pieces[n + 1..];
    }
  }

  /** A fragment starts where the ones before it end. */
  lemma OffsetIsLength(c: Cut, g: nat, n: nat)
    requires c.Valid() && g < |c.epoch.groups| && n < c.Fragments(g)
    ensures |JoinedFragments(c.epoch.groups[g].payload, c.fragment, n)| == n * c.fragment
  {
    hide JoinedFragments;
    JoinedIsPrefix(c.epoch.groups[g].payload, c.fragment, n);
    FragmentWithin(c, g, n);
  }

  /** All pieces in place join to the payload that was sent. */
  lemma FilledGroupPayload(c: Cut, b: u32, g: nat, a: GroupAssembly)
    requires c.Valid() && ExactGroup(c, b, g, a) && AllFilled(a.pieces)
    ensures GroupPayload(a) == Some(c.epoch.groups[g].payload)
  {
    hide Fragment, StableSort, Cut.Valid, Cut.Fragments;
    var pieces := Contents(a.pieces);
    forall j | 0 <= j < |pieces| ensures pieces[j] == PieceOf(c, g, j) {
      assert ExactPiece(c, g, j, a.pieces[j]);
    }
    forall i, j | 0 <= i < j < |pieces| ensures ByOffset(pieces[i], pieces[j]) {
      MulAtMost(i, j, c.fragment);
    }
    SortOfSorted(ByOffset, pieces);
    PiecesJoin(c, g, pieces, 0);
    assert pieces[0..] == pieces;
  }

  predicate GroupHas(a: GroupAssembly, j: nat) {
    j < |a.pieces| && a.pieces[j].Some?
  }

  lemma NewGroupExact(c: Cut, b: u32, g: nat, j: nat)
    requires c.Valid() && g < |c.epoch.groups| && j < c.Fragments(g)
    ensures ExactGroup(c, b, g, NewGroup(b, ShardOf(c, g, j))) && GroupShape(NewGroup(b, ShardOf(c, g, j)))
    ensures forall k: nat :: !GroupHas(NewGroup(b, ShardOf(c, g, j)), k)
  {
    hide Fragment;
  }

  /** The shard of slot (g, j), however it was recovered. */
  function SlotShard(c: Cut, b: u32, g: nat, j: nat, recovery: Recovery): Shard
    requires c.Valid() && g < |c.epoch.groups| && j < c.Fragments(g)
  {
    Shard(b, ShardOf(c, g, j), recovery, Fragment(c.epoch.groups[g].payload, c.fragment, j))
  }

  lemma SlotShardFields(c: Cut, b: u32, g: nat, j: nat, recovery: Recovery)
    requires c.Valid() && g < |c.epoch.groups| && j < c.Fragments(g)
    ensures var shard := SlotShard(c, b, g, j, recovery);
            && shard.header.fragmentIndex == j < shard.header.fragmentCount == c.Fragments(g)
            && shard.header.groupIndex == g < shard.header.groupCount == |c.epoch.groups|
            && Piece(shard.header.payloadOffset, shard.payload) == PieceOf(c, g, j)
            && shard.blockId == b && shard.recovery == recovery && shard.header == ShardOf(c, g, j)
            && shard.header.ptsSamples == c.epoch.ptsSamples
  {
    hide Fragment;
  }

  /**
   A group that holds what was sent takes in a fragment of it: never an error; the group comes out
   exactly when this fills its last slot, and then it is the group that was sent.
   */
  lemma GroupPushExact(c: Cut, b: u32, g: nat, a: GroupAssembly, j: nat, recovery: Recovery)
    requires c.Valid() && ExactGroup(c, b, g, a) && GroupShape(a) && j < c.Fragments(g)
    requires SlotShard(c, b, g, j, recovery).header.fragmentIndex < SlotShard(c, b, g, j, recovery).header.fragmentCount
    ensures var (a', r) := GroupPush(a, SlotShard(c, b, g, j, recovery));
            && ExactGroup(c, b, g, a') && GroupShape(a')
            && r.Success?
            && (forall k: nat :: GroupHas(a', k) <==> GroupHas(a, k) || k == j)
            && (r.value.Some? ==> IsGroup(c.epoch, g, r.value.value) && AllFilled(a'.pieces))
            && (r.value.None? ==> !AllFilled(a'.pieces) || a' == a)
  {
    hide Fragment, ShardOf, PieceOf, GroupPayload, Finished, Cut.Fragments, GroupMismatch, SlotShard;
    var shard := SlotShard(c, b, g, j, recovery);
    SlotShardFields(c, b, g, j, recovery);
    var first :| 0 <= first < c.Fragments(g) && a.header == ShardOf(c, g, first);
    SameGroupFields(c, g, first, j);
    if a.pieces[j].None? {
      var a' := GroupPush(a, shard).0;
      assert a'.pieces == a.pieces[j := Some(PieceOf(c, g, j))];
      forall k | 0 <= k < |a'.pieces| ensures ExactPiece(c, g, k, a'.pieces[k]) {
        if k != j {
          assert ExactPiece(c, g, k, a.pieces[k]);
        }
      }
      if AllFilled(a'.pieces) {
        FilledGroupPayload(c, b, g, a');
        FinishedIs(c, g, first, a'.recovered);
      }
    }
  }

  // ----- epochs

  /** Everything the epoch assembly holds is as sent. */
  ghost predicate ExactEpoch(c: Cut, b: u32, a: EpochAssembly)
    requires c.Valid()
  {
    && a.blockId == b
    && (exists g, j :: IsHeader(c, a.header, g, j))
    && |a.groups| == |c.epoch.groups|
    && (forall g | 0 <= g < |a.groups| :: a.groups[g].Some? ==> IsGroup(c.epoch, g, a.groups[g].value))
    && (forall g | g in a.partial ::
          && g < |a.groups|
          && ExactGroup(c, b, g, a.partial[g]) && GroupShape(a.partial[g])
          && a.groups[g].None? && !AllFilled(a.partial[g].pieces))
  }

  ghost predicate IsHeader(c: Cut, header: ShardHeader, g: nat, j: nat)
    requires c.Valid()
  {
    g < |c.epoch.groups| && j < c.Fragments(g) && header == ShardOf(c, g, j)
  }

  lemma SameEpochFields(c: Cut, g: nat, i: nat, h: nat, j: nat)
    requires c.Valid() && g < |c.epoch.groups| && i < c.Fragments(g) && h < |c.epoch.groups| && j < c.Fragments(h)
    ensures EpochMismatch(ShardOf(c, g, i), ShardOf(c, h, j)).None?
  {
    hide Fragment;
  }

  /** Whether the assembly already has fragment `j` of group `g`. */
  predicate EpochHas(a: EpochAssembly, g: nat, j: nat) {
    || (g < |a.groups| && a.groups[g].Some?)
    || (g <= U16_MAX && g in a.partial && GroupHas(a.partial[g], j))
  }

  lemma NewEpochExact(c: Cut, b: u32, g: nat, j: nat)
    requires c.Valid() && g < |c.epoch.groups| && j < c.Fragments(g)
    ensures ExactEpoch(c, b, NewEpoch(b, ShardOf(c, g, j)))
    ensures forall h: nat, k: nat :: !EpochHas(NewEpoch(b, ShardOf(c, g, j)), h, k)
  {
    hide Fragment;
    assert IsHeader(c, NewEpoch(b, ShardOf(c, g, j)).header, g, j);
  }

  lemma ExactEpochShape(c: Cut, b: u32, a: EpochAssembly)
    requires c.Valid() && ExactEpoch(c, b, a)
    ensures EpochShape(a) && a.header.ptsSamples == c.epoch.ptsSamples
  {
    hide Fragment;
  }

  lemma NewGroupPending(c: Cut, b: u32, g: nat, j: nat)
    requires c.Valid() && g < |c.epoch.groups| && j < c.Fragments(g)
    ensures !AllFilled(NewGroup(b, ShardOf(c, g, j)).pieces)
  {
    hide Fragment;
    assert NewGroup(b, ShardOf(c, g, j)).pieces[0].None?;
  }

  /** Filled means every fragment is there. */
  lemma GroupComplete(a: GroupAssembly)
    ensures AllFilled(a.pieces) <==> forall k: nat | k < |a.pieces| :: GroupHas(a, k)
  {
    if forall k: nat | k < |a.pieces| :: GroupHas(a, k) {
      forall k | 0 <= k < |a.pieces| ensures a.pieces[k].Some? {
        assert GroupHas(a, k);
      }
    }
  }

  /** `group'` is `group` with fragment `j` added. */
  ghost predicate Adds(group: GroupAssembly, group': GroupAssembly, j: nat) {
    forall k: nat :: GroupHas(group', k) <==> GroupHas(group, k) || k == j
  }

  /** The group a shard of group `g` is pushed into. */
  function GroupFor(a: EpochAssembly, g: u16, header: ShardHeader): GroupAssembly {
    if g in a.partial then a.partial[g] else NewGroup(a.blockId, header)
  }

  lemma PartialStored(c: Cut, b: u32, a: EpochAssembly, g: u16, j: nat, header: ShardHeader, group: GroupAssembly)
    requires c.Valid() && ExactEpoch(c, b, a) && g < |a.groups| && a.groups[g].None?
    requires forall k: nat :: !GroupHas(NewGroup(a.blockId, header), k)
    requires ExactGroup(c, b, g, group) && GroupShape(group) && !AllFilled(group.pieces)
    requires Adds(GroupFor(a, g, header), group, j)
    ensures var a' := a.(partial := a.partial[g := group]);
            && ExactEpoch(c, b, a')
            && forall h: nat, k: nat :: EpochHas(a', h, k) <==> EpochHas(a, h, k) || (h == g && k == j)
  {
    hide Fragment, Cut.Valid, Cut.Fragments, ExactGroup, NewGroup, IsHeader, AllFilled;
    var a' := a.(partial := a.partial[g := group]);
    var g0, j0 :| IsHeader(c, a.header, g0, j0);
    assert IsHeader(c, a'.header, g0, j0);
  }

  lemma GroupStored(c: Cut, b: u32, a: EpochAssembly, g: u16, j: nat, header: ShardHeader, group: GroupAssembly,
                    decoded: DecodedGroup)
    requires c.Valid() && ExactEpoch(c, b, a) && g < |a.groups| && a.groups[g].None?
    requires forall k: nat :: !GroupHas(NewGroup(a.blockId, header), k)
    requires |group.pieces| == c.Fragments(g) && AllFilled(group.pieces) && IsGroup(c.epoch, g, decoded)
    requires Adds(GroupFor(a, g, header), group, j)
    ensures var a' := a.(partial := a.partial - {g}, groups := a.groups[g := Some(decoded)]);
            && ExactEpoch(c, b, a')
            && forall h: nat, k: nat | h < |c.epoch.groups| && k < c.Fragments(h) ::
                 EpochHas(a', h, k) <==> EpochHas(a, h, k) || (h == g && k == j)
  {
    hide Fragment, Cut.Fragments, ExactGroup, NewGroup, IsHeader, IsGroup;
    var a' := a.(partial := a.partial - {g}, groups := a.groups[g := Some(decoded)]);
    var g0, j0 :| IsHeader(c, a.header, g0, j0);
    assert IsHeader(c, a'.header, g0, j0);
    forall h: nat, k: nat | h < |c.epoch.groups| && k < c.Fragments(h)
      ensures EpochHas(a', h, k) <==> EpochHas(a, h, k) || (h == g && k == j)
    {
      if h == g {
        assert GroupHas(group, k);
        assert GroupHas(GroupFor(a, g, header), k) || k == j;
      }
    }
  }

  /**
   An assembly that holds what was sent takes in a shard of the same epoch: never an error, what
   comes out is a group that was sent, and exactly this fragment is new.
   */
  lemma EpochPushExact(c: Cut, b: u32, a: EpochAssembly, g: nat, j: nat, recovery: Recovery)
    requires c.Valid() && ExactEpoch(c, b, a) && g < |c.epoch.groups| && j < c.Fragments(g)
    requires EpochShape(a)
    requires var h := SlotShard(c, b, g, j, recovery).header; h.fragmentIndex < h.fragmentCount && h.groupIndex < h.groupCount
    ensures var (a', r) := EpochPush(a, SlotShard(c, b, g, j, recovery));
            && ExactEpoch(c, b, a')
            && r.Success?
            && (r.value.Some? ==> IsGroup(c.epoch, g, r.value.value))
            && (forall h: nat, k: nat | h < |c.epoch.groups| && k < c.Fragments(h) ::
                  EpochHas(a', h, k) <==> EpochHas(a, h, k) || (h == g && k == j))
  {
    hide Fragment, ShardOf, Cut.Fragments, EpochMismatch, SlotShard, GroupPush, ExactGroup, NewGroup, EpochHas, GroupHas,
         AllFilled, IsGroup;
    var shard := SlotShard(c, b, g, j, recovery);
    SlotShardFields(c, b, g, j, recovery);
    var g0, j0 :| IsHeader(c, a.header, g0, j0);
    SameEpochFields(c, g0, j0, g, j);
    if a.groups[g].None? {
      NewGroupExact(c, b, g, j);
      NewGroupPending(c, b, g, j);
      var group := GroupFor(a, g, shard.header);
      GroupPushExact(c, b, g, group, j, recovery);
      var pushed := GroupPush(group, shard);
      assert Adds(group, pushed.0, j);
      if pushed.1.value.None? {
        PartialStored(c, b, a, g, j, shard.header, pushed.0);
      } else {
        ExactGroupSize(c, b, g, pushed.0);
        GroupStored(c, b, a, g, j, shard.header, pushed.0, pushed.1.value.value);
        assert a.partial[g := pushed.0] - {g} == a.partial - {g};
      }
    } else {
      FilledHasAll(a, g);
    }
  }

  lemma ExactGroupSize(c: Cut, b: u32, g: nat, a: GroupAssembly)
    requires c.Valid() && ExactGroup(c, b, g, a)
    ensures |a.pieces| == c.Fragments(g)
  {
  }

  lemma FilledHasAll(a: EpochAssembly, g: nat)
    requires g < |a.groups| && a.groups[g].Some?
    ensures forall k: nat :: EpochHas(a, g, k)
  {
  }

  /** A complete assembly finishes as the epoch that was sent. */
  lemma FinishedExact(c: Cut, b: u32, a: EpochAssembly)
    requires c.Valid() && ExactEpoch(c, b, a) && AllFilled(a.groups)
    ensures IsEpoch(c.epoch, FinishedEpoch(a))
  {
    hide Fragment, Cut.Valid, Cut.Fragments, IsGroup;
    var g0, j0 :| IsHeader(c, a.header, g0, j0);
    forall g | 0 <= g < |c.epoch.groups| ensures IsGroup(c.epoch, g, FinishedEpoch(a).groups[g]) {
      assert a.groups[g].Some?;
    }
  }
}
