/**
 Reassembly: shards fill the fragment slots of a group, complete groups fill the group slots of an
 epoch. An assembly is owned by the receiver's table and never shared, so it is a value here; what
 the source does to it in place is a function from the old value to the new one.
 */
module Assembly {
  import opened AudioTypes
  import opened ByteCodec
  import opened Collections
  import opened MachineInts
  import opened ShardHeaders
  import opened Wrappers

  datatype DecodedGroup = DecodedGroup(
    sessionId: u64, configGeneration: u32, epochId: u64, ptsSamples: u64, sampleRate: u32, frameCount: u32,
    groupCount: u16, groupId: u16, groupIndex: u16, channelStart: u16, channelCount: u16, payloadKind: PayloadKind,
    sampleFormat: SampleFormat, flags: u8, payload: Bytes, recoveredFragments: u16)

  datatype DecodedEpoch = DecodedEpoch(
    sessionId: u64, configGeneration: u32, epochId: u64, ptsSamples: u64, sampleRate: u32, frameCount: u32,
    groups: seq<DecodedGroup>)

  datatype SessionError =
    | Audio(audioError: AudioError)
    | EpochMetadataMismatch(blockId: u32, field: string)
    | GroupMetadataMismatch(blockId: u32, groupIndex: u16, field: string)
    | NonContiguousGroupPayload(blockId: u32, groupIndex: u16)
    | IncompleteEpoch(blockId: u32)

  // ----- groups

  datatype Piece = Piece(offset: u32, payload: Bytes)

  datatype GroupAssembly = GroupAssembly(blockId: u32, header: ShardHeader, pieces: seq<Option<Piece>>, recovered: u16)

  function NewGroup(blockId: u32, header: ShardHeader): GroupAssembly {
    GroupAssembly(blockId, header, seq(header.fragmentCount, _ => None), 0)
  }

  /** The first field in which two shards of one group differ. */
  function GroupMismatch(a: ShardHeader, b: ShardHeader): Option<string> {
    if a.groupId != b.groupId then Some("group_id")
    else if a.groupIndex != b.groupIndex then Some("group_index")
    else if a.channelStart != b.channelStart then Some("channel_start")
    else if a.channelCount != b.channelCount then Some("channel_count")
    else if a.payloadKind != b.payloadKind then Some("payload_kind")
    else if a.sampleFormat != b.sampleFormat then Some("sample_format")
    else if a.flags != b.flags then Some("flags")
    else if a.fragmentCount != b.fragmentCount then Some("fragment_count")
    else if a.groupPayloadLen != b.groupPayloadLen then Some("group_payload_len")
    else None
  }

  predicate AllFilled<T>(slots: seq<Option<T>>) {
    forall i | 0 <= i < |slots| :: slots[i].Some?
  }

  function Contents<T>(slots: seq<Option<T>>): (contents: seq<T>)
    requires AllFilled(slots)
    ensures |contents| == |slots|
    ensures forall i | 0 <= i < |slots| :: contents[i] == slots[i].value
  {
    seq(|slots|, i requires 0 <= i < |slots| => slots[i].value)
  }

  predicate ByOffset(a: Piece, b: Piece) {
    a.offset <= b.offset
  }

  /** Append pieces as long as each starts where the previous one ended. */
  function JoinPieces(joined: Bytes, pieces: seq<Piece>): Option<Bytes>
    decreases |pieces|
  {
    if pieces == [] then Some(joined)
    else if pieces[0].offset != |joined| then None
    else JoinPieces(joined + pieces[0].payload, pieces[1..])
  }

  function GroupPayload(g: GroupAssembly): Option<Bytes>
    requires AllFilled(g.pieces)
  {
    var joined := JoinPieces([], StableSort(ByOffset, Contents(g.pieces)));
    if joined.Some? && |joined.value| == g.header.groupPayloadLen then joined else None
  }

  function Finished(h: ShardHeader, payload: Bytes, recovered: u16): DecodedGroup {
    DecodedGroup(h.sessionId, h.configGeneration, h.epochId, h.ptsSamples, h.sampleRate, h.frameCount, h.groupCount,
                 h.groupId, h.groupIndex, h.channelStart, h.channelCount, h.payloadKind, h.sampleFormat, h.flags,
                 payload, recovered)
  }

  predicate GroupShape(g: GroupAssembly) {
    |g.pieces| == g.header.fragmentCount
  }

  /** `GroupAssembly::push` */
  function GroupPush(g: GroupAssembly, shard: Shard): (GroupAssembly, Result<Option<DecodedGroup>, SessionError>)
    requires GroupShape(g) && shard.header.fragmentIndex < shard.header.fragmentCount
  {
    var mismatch := GroupMismatch(g.header, shard.header);
    if mismatch.Some? then
      (g, Failure(GroupMetadataMismatch(g.blockId, g.header.groupIndex, mismatch.value)))
    else if g.pieces[shard.header.fragmentIndex].Some? then (g, Success(None))
    else
      var g' := g.(
        recovered := if shard.recovery.Repaired? then Min(g.recovered + 1, U16_MAX) else g.recovered,
        pieces := g.pieces[shard.header.fragmentIndex := Some(Piece(shard.header.payloadOffset, shard.payload))]);
      if !AllFilled(g'.pieces) then (g', Success(None))
      else
        var payload := GroupPayload(g');
        if payload.None? then (g', Failure(NonContiguousGroupPayload(shard.blockId, g.header.groupIndex)))
        else (g', Success(Some(Finished(g.header, payload.value, g'.recovered))))
  }

  /** The joining loop of a group whose fragments are all there. */
  method JoinGroup(g: GroupAssembly) returns (payload: Option<Bytes>)
    requires AllFilled(g.pieces)
    ensures payload == GroupPayload(g)
  {
    hide StableSort;
    var pieces := StableSort(ByOffset, Contents(g.pieces));
    var joined := [];
    assert pieces[0..] == pieces;
    for i := 0 to |pieces|
      invariant JoinPieces([], pieces) == JoinPieces(joined, pieces[i..])
    {
      assert pieces[i..][1..] == pieces[i + 1..];
      if pieces[i].offset != |joined| {
        return None;
      }
      joined := joined + pieces[i].payload;
    }
    payload := if |joined| == g.header.groupPayloadLen then Some(joined) else None;
  }

  method PushGroup(g: GroupAssembly, shard: Shard)
    returns (g': GroupAssembly, r: Result<Option<DecodedGroup>, SessionError>)
    requires GroupShape(g) && shard.header.fragmentIndex < shard.header.fragmentCount
    ensures (g', r) == GroupPush(g, shard)
  {
    hide GroupPayload;
    g' := g;
    var mismatch := GroupMismatch(g.header, shard.header);
    if mismatch.Some? {
      return g', Failure(GroupMetadataMismatch(g.blockId, g.header.groupIndex, mismatch.value));
    }
    var index := shard.header.fragmentIndex;
    if g.pieces[index].Some? {
      return g', Success(None);
    }
    if shard.recovery.Repaired? {
      g' := g'.(recovered := Min(g'.recovered + 1, U16_MAX));
    }
    g' := g'.(pieces := g'.pieces[index := Some(Piece(shard.header.payloadOffset, shard.payload))]);
    if !AllFilled(g'.pieces) {
      return g', Success(None);
    }
    var payload := JoinGroup(g');
    if payload.None? {
      return g', Failure(NonContiguousGroupPayload(shard.blockId, g.header.groupIndex));
    }
    r := Success(Some(Finished(g.header, payload.value, g'.recovered)));
  }

  // ----- epochs

  /** `header` is the first shard's; the epoch fields are the ones in it. */
  datatype EpochAssembly = EpochAssembly(
    blockId: u32, header: ShardHeader, groups: seq<Option<DecodedGroup>>, partial: map<u16, GroupAssembly>)

  function NewEpoch(blockId: u32, header: ShardHeader): EpochAssembly {
    EpochAssembly(blockId, header, seq(header.groupCount, _ => None), map[])
  }

  function EpochMismatch(a: ShardHeader, b: ShardHeader): Option<string> {
    if a.sessionId != b.sessionId then Some("session_id")
    else if a.configGeneration != b.configGeneration then Some("config_generation")
    else if a.epochId != b.epochId then Some("epoch_id")
    else if a.ptsSamples != b.ptsSamples then Some("pts_samples")
    else if a.sampleRate != b.sampleRate then Some("sample_rate")
    else if a.frameCount != b.frameCount then Some("frame_count")
    else if a.groupCount != b.groupCount then Some("group_count")
    else if a.sourceCount != b.sourceCount then Some("source_count")
    else None
  }

  predicate EpochShape(a: EpochAssembly) {
    && |a.groups| == a.header.groupCount
    && forall g | g in a.partial :: GroupShape(a.partial[g])
  }

  /** `EpochAssembly::push` */
  function EpochPush(a: EpochAssembly, shard: Shard): (EpochAssembly, Result<Option<DecodedGroup>, SessionError>)
    requires EpochShape(a)
    requires shard.header.fragmentIndex < shard.header.fragmentCount && shard.header.groupIndex < shard.header.groupCount
  {
    var mismatch := EpochMismatch(a.header, shard.header);
    var index := shard.header.groupIndex;
    if mismatch.Some? then (a, Failure(EpochMetadataMismatch(a.blockId, mismatch.value)))
    else if a.groups[index].Some? then (a, Success(None))
    else
      var group := if index in a.partial then a.partial[index] else NewGroup(a.blockId, shard.header);
      var (group', r) := GroupPush(group, shard);
      var a' := a.(partial := a.partial[index := group']);
      match r
      case Failure(error) => (a', Failure(error))
      case Success(None) => (a', Success(None))
      case Success(Some(decoded)) =>
        (a'.(partial := a'.partial - {index}, groups := a'.groups[index := Some(decoded)]), Success(Some(decoded)))
  }

  /** `EpochAssembly::finish` of a complete assembly */
  function FinishedEpoch(a: EpochAssembly): DecodedEpoch
    requires AllFilled(a.groups)
  {
    var h := a.header;
    DecodedEpoch(h.sessionId, h.configGeneration, h.epochId, h.ptsSamples, h.sampleRate, h.frameCount, Contents(a.groups))
  }

  lemma EpochPushKeepsShape(a: EpochAssembly, shard: Shard)
    requires EpochShape(a)
    requires shard.header.fragmentIndex < shard.header.fragmentCount && shard.header.groupIndex < shard.header.groupCount
    ensures var a' := EpochPush(a, shard).0;
            EpochShape(a') && a'.header == a.header && a'.blockId == a.blockId
  {
    hide GroupPayload;
  }

  method PushEpoch(a: EpochAssembly, shard: Shard)
    returns (a': EpochAssembly, r: Result<Option<DecodedGroup>, SessionError>)
    requires EpochShape(a)
    requires shard.header.fragmentIndex < shard.header.fragmentCount && shard.header.groupIndex < shard.header.groupCount
    ensures (a', r) == EpochPush(a, shard)
  {
    hide GroupPush;
    a' := a;
    var mismatch := EpochMismatch(a.header, shard.header);
    if mismatch.Some? {
      return a', Failure(EpochMetadataMismatch(a.blockId, mismatch.value));
    }
    var index := shard.header.groupIndex;
    if a.groups[index].Some? {
      return a', Success(None);
    }
    NewGroupShape(a.blockId, shard.header);
    var group := if index in a.partial then a.partial[index] else NewGroup(a.blockId, shard.header);
    var group', pushed := PushGroup(group, shard);
    a' := a'.(partial := a'.partial[index := group']);
    if pushed.Failure? || pushed.value.None? {
      return a', pushed;
    }
    a' := a'.(partial := a'.partial - {index}, groups := a'.groups[index := pushed.value]);
    r := pushed;
  }

  lemma NewGroupShape(blockId: u32, header: ShardHeader)
    ensures GroupShape(NewGroup(blockId, header))
  {
  }

  // ----- what the assemblies answer, whatever arrives

  ghost predicate SameGroup(a: ShardHeader, b: ShardHeader) {
    && a.groupId == b.groupId && a.groupIndex == b.groupIndex && a.channelStart == b.channelStart
    && a.channelCount == b.channelCount && a.payloadKind == b.payloadKind && a.sampleFormat == b.sampleFormat
    && a.flags == b.flags && a.fragmentCount == b.fragmentCount && a.groupPayloadLen == b.groupPayloadLen
  }

  /** A mismatch is reported exactly when some field of the group differs, and then names the first such field. */
  lemma GroupMismatchIs(a: ShardHeader, b: ShardHeader)
    ensures var m := GroupMismatch(a, b);
            && (m.None? <==> SameGroup(a, b))
            && (m == Some("group_id") <==> a.groupId != b.groupId)
            && (m == Some("group_index") <==> a.groupId == b.groupId && a.groupIndex != b.groupIndex)
            && (m == Some("channel_start") ==> a.channelStart != b.channelStart)
            && (m == Some("channel_count") ==> a.channelStart == b.channelStart && a.channelCount != b.channelCount)
            && (m == Some("payload_kind") ==> a.channelCount == b.channelCount && a.payloadKind != b.payloadKind)
            && (m == Some("sample_format") ==> a.payloadKind == b.payloadKind && a.sampleFormat != b.sampleFormat)
            && (m == Some("flags") ==> a.sampleFormat == b.sampleFormat && a.flags != b.flags)
            && (m == Some("fragment_count") ==> a.flags == b.flags && a.fragmentCount != b.fragmentCount)
            && (m == Some("group_payload_len") ==> a.fragmentCount == b.fragmentCount && a.groupPayloadLen != b.groupPayloadLen)
            && (m.Some? ==> m.value in ["group_id", "group_index", "channel_start", "channel_count", "payload_kind",
                                        "sample_format", "flags", "fragment_count", "group_payload_len"])
  {
  }

  ghost predicate SameEpoch(a: ShardHeader, b: ShardHeader) {
    && a.sessionId == b.sessionId && a.configGeneration == b.configGeneration && a.epochId == b.epochId
    && a.ptsSamples == b.ptsSamples && a.sampleRate == b.sampleRate && a.frameCount == b.frameCount
    && a.groupCount == b.groupCount && a.sourceCount == b.sourceCount
  }

  lemma EpochMismatchIs(a: ShardHeader, b: ShardHeader)
    ensures var m := EpochMismatch(a, b);
            && (m.None? <==> SameEpoch(a, b))
            && (m == Some("session_id") <==> a.sessionId != b.sessionId)
            && (m == Some("config_generation") <==> a.sessionId == b.sessionId && a.configGeneration != b.configGeneration)
            && (m == Some("epoch_id") ==> a.configGeneration == b.configGeneration && a.epochId != b.epochId)
            && (m == Some("pts_samples") ==> a.epochId == b.epochId && a.ptsSamples != b.ptsSamples)
            && (m == Some("sample_rate") ==> a.ptsSamples == b.ptsSamples && a.sampleRate != b.sampleRate)
            && (m == Some("frame_count") ==> a.sampleRate == b.sampleRate && a.frameCount != b.frameCount)
            && (m == Some("group_count") ==> a.frameCount == b.frameCount && a.groupCount != b.groupCount)
            && (m == Some("source_count") ==> a.groupCount == b.groupCount && a.sourceCount != b.sourceCount)
            && (m.Some? ==> m.value in ["session_id", "config_generation", "epoch_id", "pts_samples", "sample_rate",
                                        "frame_count", "group_count", "source_count"])
  {
  }

  /** All bytes of these pieces, one after the other. */
  function Together(pieces: seq<Piece>): Bytes {
    if pieces == [] then [] else Together(pieces[..|pieces| - 1]) + pieces[|pieces| - 1].payload
  }

  /** Every piece starts where those before it end. */
  ghost predicate Contiguous(start: nat, pieces: seq<Piece>) {
    forall i | 0 <= i < |pieces| :: pieces[i].offset == start + |Together(pieces[..i])|
  }

  lemma {:induction false} TogetherFront(front: Piece, rest: seq<Piece>)
    ensures Together([front] + rest) == front.payload + Together(rest)
    decreases |rest|
  {
    var all := [front] + rest;
    if rest == [] {
      assert all[..0] == [] && all == [front];
      assert Together(all) == [] + front.payload;
    } else {
      assert all[..|all| - 1] == [front] + rest[..|rest| - 1];
      TogetherFront(front, rest[..|rest| - 1]);
    }
  }

  lemma ContiguousFront(start: nat, front: Piece, rest: seq<Piece>)
    ensures Contiguous(start, [front] + rest) <==> front.offset == start && Contiguous(start + |front.payload|, rest)
  {
    hide Together;
    var all := [front] + rest;
    NothingTogether();
    assert all[..0] == [];
    forall i | 0 <= i < |rest| ensures |Together(all[..i + 1])| == |front.payload| + |Together(rest[..i])| {
      assert all[..i + 1] == [front] + rest[..i];
      TogetherFront(front, rest[..i]);
    }
    assert forall i | 0 <= i < |rest| :: all[i + 1] == rest[i];
    if Contiguous(start, all) {
      assert all[0].offset == start + |Together(all[..0])|;
      forall i | 0 <= i < |rest| ensures rest[i].offset == start + |front.payload| + |Together(rest[..i])| {
        assert all[i + 1].offset == start + |Together(all[..i + 1])|;
      }
    }
    if front.offset == start && Contiguous(start + |front.payload|, rest) {
      forall i | 0 <= i < |all| ensures all[i].offset == start + |Together(all[..i])| {
        if i > 0 {
          assert rest[i - 1].offset == start + |front.payload| + |Together(rest[..i - 1])|;
        }
      }
    }
  }

  lemma NothingTogether()
    ensures Together([]) == []
  {
  }

  /** Pieces are joined exactly if they are contiguous, and then to all their bytes. */
  lemma {:induction false} JoinIs(joined: Bytes, pieces: seq<Piece>)
    ensures JoinPieces(joined, pieces) == if Contiguous(|joined|, pieces) then Some(joined + Together(pieces)) else None
    decreases |pieces|
  {
    hide Contiguous, Together;
    if pieces == [] {
      NothingTogether();
      assert Contiguous(|joined|, pieces) by { NothingContiguous(|joined|); }
      assert joined + [] == joined;
    } else {
      assert pieces == [pieces[0]] + pieces[1..];
      ContiguousFront(|joined|, pieces[0], pieces[1..]);
      TogetherFront(pieces[0], pieces[1..]);
      JoinIs(joined + pieces[0].payload, pieces[1..]);
      assert joined + pieces[0].payload + Together(pieces[1..]) == joined + (pieces[0].payload + Together(pieces[1..]));
    }
  }

  lemma NothingContiguous(start: nat)
    ensures Contiguous(start, [])
  {
  }

  /** The pieces in order of their offsets are contiguous from 0 and have the declared length. */
  ghost predicate Fits(g: GroupAssembly, pieces: seq<Piece>) {
    Contiguous(0, pieces) && |Together(pieces)| == g.header.groupPayloadLen
  }

  /** A filled group gives its bytes exactly if its pieces, sorted by offset, fit together. */
  lemma PayloadIs(g: GroupAssembly) returns (pieces: seq<Piece>)
    requires AllFilled(g.pieces)
    ensures multiset(pieces) == multiset(Contents(g.pieces))
    ensures forall i, j | 0 <= i < j < |pieces| :: pieces[i].offset <= pieces[j].offset
    ensures GroupPayload(g) == if Fits(g, pieces) then Some(Together(pieces)) else None
  {
    hide StableSort, Contiguous, Together;
    pieces := StableSort(ByOffset, Contents(g.pieces));
    SortMembers(ByOffset, Contents(g.pieces));
    SortSorts(ByOffset, Contents(g.pieces));
    assert forall i, j | 0 <= i < j < |pieces| :: ByOffset(pieces[i], pieces[j]);
    JoinIs([], pieces);
    assert [] + Together(pieces) == Together(pieces);
  }

  /**
   One shard, whatever it is: of another group it is refused, of a filled slot ignored, and otherwise it
   takes its slot and counts if it was recovered. The group comes out with its last slot, under the first
   shard's fields, if the pieces fit together.
   */
  lemma GroupPushIs(g: GroupAssembly, shard: Shard)
    requires GroupShape(g) && shard.header.fragmentIndex < shard.header.fragmentCount
    ensures var ((g', r), h) := (GroupPush(g, shard), shard.header);
            if !SameGroup(g.header, h) then
              && g' == g && r.Failure? && r.error.GroupMetadataMismatch?
              && r.error.blockId == g.blockId && r.error.groupIndex == g.header.groupIndex
            else
              && h.fragmentIndex < |g.pieces|
              && if g.pieces[h.fragmentIndex].Some? then g' == g && r == Success(None)
                 else
                   && g'.blockId == g.blockId && g'.header == g.header && |g'.pieces| == |g.pieces|
                   && g'.pieces[h.fragmentIndex] == Some(Piece(h.payloadOffset, shard.payload))
                   && (forall k | 0 <= k < |g.pieces| && k != h.fragmentIndex :: g'.pieces[k] == g.pieces[k])
                   && g'.recovered == (if shard.recovery.Repaired? && g.recovered < 65_535 then g.recovered + 1 else g.recovered)
                   && if exists k :: 0 <= k < |g'.pieces| && g'.pieces[k].None? then r == Success(None)
                      else if GroupPayload(g').None? then
                        r == Failure(NonContiguousGroupPayload(shard.blockId, g.header.groupIndex))
                      else
                        && r.Success? && r.value.Some?
                        && var d := r.value.value;
                           && d.payload == GroupPayload(g').value && d.recoveredFragments == g'.recovered
                           && d.groupId == g.header.groupId && d.groupIndex == g.header.groupIndex
  {
    hide GroupPayload, GroupMismatch;
    GroupMismatchIs(g.header, shard.header);
  }

  /**
   One shard into an epoch: of another epoch it is refused, of a group already complete ignored, and otherwise
   it goes to its group, which moves to the complete ones when it comes out.
   */
  lemma EpochPushIs(a: EpochAssembly, shard: Shard)
    requires EpochShape(a)
    requires shard.header.fragmentIndex < shard.header.fragmentCount && shard.header.groupIndex < shard.header.groupCount
    ensures var ((a', r), h, k) := (EpochPush(a, shard), shard.header, shard.header.groupIndex);
            if !SameEpoch(a.header, h) then
              a' == a && r.Failure? && r.error.EpochMetadataMismatch? && r.error.blockId == a.blockId
            else
              && k < |a.groups|
              && if a.groups[k].Some? then a' == a && r == Success(None)
                 else
                   var group := if k in a.partial then a.partial[k]
                                else GroupAssembly(a.blockId, h, NewGroup(a.blockId, h).pieces, 0);
                   && GroupShape(group)
                   && var (group', answer) := GroupPush(group, shard);
                      && r == answer && a'.blockId == a.blockId && a'.header == a.header
                      && (forall g | g != k :: g in a'.partial <==> g in a.partial)
                      && (forall g | g != k && g in a.partial :: a'.partial[g] == a.partial[g])
                      && if answer.Success? && answer.value.Some? then
                           k !in a'.partial && a'.groups == a.groups[k := answer.value]
                         else k in a'.partial && a'.partial[k] == group' && a'.groups == a.groups
  {
    hide GroupPush, EpochMismatch;
    EpochMismatchIs(a.header, shard.header);
    NewGroupShape(a.blockId, shard.header);
    var k := shard.header.groupIndex;
    assert NewGroup(a.blockId, shard.header)
        == GroupAssembly(a.blockId, shard.header, NewGroup(a.blockId, shard.header).pieces, 0);
    var group := if k in a.partial then a.partial[k] else NewGroup(a.blockId, shard.header);
    match GroupPush(group, shard).1
    case Failure(error) =>
    case Success(None) =>
    case Success(Some(decoded)) =>
  }

  // ----- a group from its first shard on

  /** The group after these shards of it. */
  function GroupAfter(g: GroupAssembly, shards: seq<Shard>): (g': GroupAssembly)
    requires GroupShape(g) && forall i | 0 <= i < |shards| :: shards[i].header.fragmentIndex < shards[i].header.fragmentCount
    ensures GroupShape(g') && g'.header == g.header
  {
    if shards == [] then g
    else GroupPush(GroupAfter(g, shards[..|shards| - 1]), shards[|shards| - 1]).0
  }

  /** Shard `i` is the first of its group to bring fragment `k`. */
  ghost predicate FirstFor(shards: seq<Shard>, i: nat, k: nat) {
    && i < |shards| && shards[i].header.fragmentIndex == k
    && forall j | 0 <= j < i :: shards[j].header.fragmentIndex != k
  }

  /** Fragments that a recovered shard brought first. */
  ghost function RecoveredFirst(shards: seq<Shard>): set<nat> {
    set i: nat | i < |shards| && shards[i].recovery.Repaired? && FirstFor(shards, i, shards[i].header.fragmentIndex)
              :: shards[i].header.fragmentIndex as nat
  }

  lemma FirstForPrefix(shards: seq<Shard>, n: nat, i: nat, k: nat)
    requires n <= |shards| && i < n
    ensures FirstFor(shards[..n], i, k) <==> FirstFor(shards, i, k)
  {
  }

  /** One more shard: its fragment counts as recovered if it was recovered and nothing brought it before. */
  lemma RecoveredNext(shards: seq<Shard>)
    requires shards != []
    ensures var n := |shards| - 1;
            var k := shards[n].header.fragmentIndex as nat;
            RecoveredFirst(shards)
            == RecoveredFirst(shards[..n]) + if shards[n].recovery.Repaired? && FirstFor(shards, n, k) then {k} else {}
    ensures FirstFor(shards, |shards| - 1, shards[|shards| - 1].header.fragmentIndex) ==>
              shards[|shards| - 1].header.fragmentIndex as nat !in RecoveredFirst(shards[..|shards| - 1])
  {
    var n := |shards| - 1;
    var before := shards[..n];
    forall i: nat | i < n ensures before[i] == shards[i]
      && (FirstFor(before, i, shards[i].header.fragmentIndex) <==> FirstFor(shards, i, shards[i].header.fragmentIndex))
    {
      FirstForPrefix(shards, n, i, shards[i].header.fragmentIndex);
    }
  }

  /**
   The first shard to bring a fragment is the one that stays; and the group counts as recovered exactly the
   fragments that a recovered shard brought first.
   */
  lemma {:induction false} GroupRun(blockId: u32, header: ShardHeader, shards: seq<Shard>)
    requires forall i | 0 <= i < |shards| ::
               SameGroup(header, shards[i].header) && shards[i].header.fragmentIndex < shards[i].header.fragmentCount
    ensures var g := GroupAfter(NewGroup(blockId, header), shards);
            && |g.pieces| == header.fragmentCount
            && (forall i: nat, k: nat | FirstFor(shards, i, k) && k < |g.pieces| ::
                  g.pieces[k] == Some(Piece(shards[i].header.payloadOffset, shards[i].payload)))
            && (forall k: nat | k < |g.pieces| && g.pieces[k].Some? :: exists i: nat :: FirstFor(shards, i, k))
            && g.recovered == |RecoveredFirst(shards)|
    decreases |shards|
  {
    hide GroupPush, GroupPayload;
    if shards == [] {
      assert RecoveredFirst(shards) == {};
    } else {
      var n := |shards| - 1;
      GroupRun(blockId, header, shards[..n]);
      var g := GroupAfter(NewGroup(blockId, header), shards[..n]);
      RunStep(g, shards);
    }
  }

  lemma RunStep(g: GroupAssembly, shards: seq<Shard>)
    requires shards != [] && GroupShape(g)
    requires forall i | 0 <= i < |shards| ::
               SameGroup(g.header, shards[i].header) && shards[i].header.fragmentIndex < shards[i].header.fragmentCount
    requires var before := shards[..|shards| - 1];
             && (forall i: nat, k: nat | FirstFor(before, i, k) && k < |g.pieces| ::
                   g.pieces[k] == Some(Piece(before[i].header.payloadOffset, before[i].payload)))
             && (forall k: nat | k < |g.pieces| && g.pieces[k].Some? :: exists i: nat :: FirstFor(before, i, k))
             && g.recovered == |RecoveredFirst(before)|
    ensures var g' := GroupPush(g, shards[|shards| - 1]).0;
            && |g'.pieces| == |g.pieces|
            && (forall i: nat, k: nat | FirstFor(shards, i, k) && k < |g'.pieces| ::
                  g'.pieces[k] == Some(Piece(shards[i].header.payloadOffset, shards[i].payload)))
            && (forall k: nat | k < |g'.pieces| && g'.pieces[k].Some? :: exists i: nat :: FirstFor(shards, i, k))
            && g'.recovered == |RecoveredFirst(shards)|
  {
    hide GroupPush, GroupPayload, RecoveredFirst;
    var n := |shards| - 1;
    var before, shard := shards[..n], shards[n];
    var at := shard.header.fragmentIndex as nat;
    GroupPushIs(g, shard);
    RecoveredNext(shards);
    forall i: nat, k: nat | i < n ensures FirstFor(before, i, k) <==> FirstFor(shards, i, k) {
      FirstForPrefix(shards, n, i, k);
    }
    NewExactlyFirst(g, shards);
    if FirstFor(shards, n, at) && shard.recovery.Repaired? {
      RecoveredFits(shards, g.header.fragmentCount);
    }
  }

  /** The slot is free exactly if this shard is the first of its fragment. */
  lemma NewExactlyFirst(g: GroupAssembly, shards: seq<Shard>)
    requires shards != [] && shards[|shards| - 1].header.fragmentIndex < |g.pieces|
    requires var before := shards[..|shards| - 1];
             && (forall i: nat, k: nat | FirstFor(before, i, k) && k < |g.pieces| :: g.pieces[k].Some?)
             && (forall k: nat | k < |g.pieces| && g.pieces[k].Some? :: exists i: nat :: FirstFor(before, i, k))
    ensures var n := |shards| - 1;
            g.pieces[shards[n].header.fragmentIndex].None? <==> FirstFor(shards, n, shards[n].header.fragmentIndex)
  {
    var n := |shards| - 1;
    var before, at := shards[..n], shards[n].header.fragmentIndex as nat;
    if g.pieces[at].Some? {
      var i: nat :| FirstFor(before, i, at);
      assert shards[i] == before[i];
    } else if !FirstFor(shards, n, at) {
      var j :| 0 <= j < n && shards[j].header.fragmentIndex == at;
      var i := SomeFirst(shards, j);
      FirstForPrefix(shards, n, i, at);
    }
  }

  lemma {:induction false} BelowSize(xs: set<nat>, n: nat)
    requires forall x | x in xs :: x < n
    ensures |xs| <= n
  {
    if n > 0 {
      BelowSize(xs - {n - 1}, n - 1);
      if n - 1 in xs {
        assert xs == xs - {n - 1} + {n - 1};
      } else {
        assert xs == xs - {n - 1};
      }
    }
  }

  lemma RecoveredFits(shards: seq<Shard>, count: nat)
    requires forall i | 0 <= i < |shards| :: shards[i].header.fragmentIndex < count
    ensures |RecoveredFirst(shards)| <= count
  {
    BelowSize(RecoveredFirst(shards), count);
  }

  lemma {:induction false} SomeFirst(shards: seq<Shard>, j: nat) returns (i: nat)
    requires j < |shards|
    ensures i <= j && FirstFor(shards, i, shards[j].header.fragmentIndex)
  {
    if FirstFor(shards, j, shards[j].header.fragmentIndex) {
      i := j;
    } else {
      var k :| 0 <= k < j && shards[k].header.fragmentIndex == shards[j].header.fragmentIndex;
      i := SomeFirst(shards, k);
    }
  }
}
