/**
 The sender's backfill store: the frames encoded last, by stream and sequence, so that datagrams of
 them can be sent again.
 */
module Backfill {
  import opened ByteCodec
  import opened MachineInts
  import opened MediaDecoding
  import opened MediaEncoding
  import opened MediaFragments
  import opened MediaLayout
  import opened Wrappers

  datatype StoredFrame = StoredFrame(key: Key, metadata: Metadata, stats: FrameStats, datagrams: seq<Bytes>)

  datatype StoredDatagram = StoredDatagram(index: nat, bytes: Bytes)

  datatype Request = WholeFrame(key: Key) | SomeDatagrams(key: Key, indices: seq<nat>)

  datatype Response = Response(key: Key, datagrams: seq<StoredDatagram>)

  function KeyOfFrame(frame: EncodedFrame): Key {
    Key(frame.metadata.streamId, frame.metadata.sequence)
  }

  function Stored(frame: EncodedFrame): StoredFrame {
    StoredFrame(KeyOfFrame(frame), frame.metadata, StatsOf(frame.blocks, frame.datagrams), frame.datagrams)
  }

  /** First position of the key from `i` on, or the length. */
  function PositionFrom(frames: seq<StoredFrame>, key: Key, i: nat): (p: nat)
    requires i <= |frames|
    ensures i <= p <= |frames| && (p < |frames| ==> frames[p].key == key)
    ensures forall j | i <= j < p :: frames[j].key != key
    decreases |frames| - i
  {
    if i == |frames| || frames[i].key == key then i else PositionFrom(frames, key, i + 1)
  }

  function RemoveAt<T>(s: seq<T>, p: nat): (r: seq<T>)
    requires p < |s|
    ensures |r| == |s| - 1
  {
    s[..p] + s[p + 1..]
  }

  function RemoveKey(frames: seq<StoredFrame>, key: Key): seq<StoredFrame> {
    var p := PositionFrom(frames, key, 0);
    if p < |frames| then RemoveAt(frames, p) else frames
  }

  function Last<T>(s: seq<T>, n: nat): seq<T> {
    if |s| <= n then s else s[|s| - n..]
  }

  function Inserted(frames: seq<StoredFrame>, capacity: nat, frame: EncodedFrame): seq<StoredFrame> {
    Last(RemoveKey(frames, KeyOfFrame(frame)) + [Stored(frame)], capacity)
  }

  /** `get` */
  function Get(frames: seq<StoredFrame>, key: Key): Option<StoredFrame> {
    var p := PositionFrom(frames, key, 0);
    if p < |frames| then Some(frames[p]) else None
  }

  function Numbered(datagrams: seq<Bytes>): seq<StoredDatagram> {
    seq(|datagrams|, i requires 0 <= i < |datagrams| => StoredDatagram(i, datagrams[i]))
  }

  /** The requested datagrams that exist, in request order. */
  function Selected(datagrams: seq<Bytes>, indices: seq<nat>): seq<StoredDatagram> {
    if indices == [] then []
    else (if indices[0] < |datagrams| then [StoredDatagram(indices[0], datagrams[indices[0]])] else [])
         + Selected(datagrams, indices[1..])
  }

  /** `fulfill` */
  function Fulfilled(frames: seq<StoredFrame>, request: Request): Option<Response> {
    match Get(frames, request.key)
    case None => None
    case Some(frame) =>
      var datagrams := match request
                       case WholeFrame(_) => Numbered(frame.datagrams)
                       case SomeDatagrams(_, indices) => Selected(frame.datagrams, indices);
      if datagrams == [] then None else Some(Response(frame.key, datagrams))
  }

  lemma TailOfTail<T>(s: seq<T>, cut: nat, k: nat)
    requires cut + k <= |s|
    ensures s[cut..][k..] == s[cut + k..]
  {
  }

  class MediaBackfillStore {
    const capacity: nat
    var frames: seq<StoredFrame>

    constructor (capacityFrames: nat)
      ensures capacity == Max(capacityFrames, 1) && frames == []
    {
      capacity := Max(capacityFrames, 1);
      frames := [];
    }

    method InsertEncodedFrame(frame: EncodedFrame)
      modifies this
      ensures frames == Inserted(old(frames), capacity, frame)
    {
      var key := KeyOfFrame(frame);
      var p := PositionFrom(frames, key, 0);
      if p < |frames| {
        frames := RemoveAt(frames, p);
      }
      frames := frames + [Stored(frame)];
      ghost var all := frames;
      while |frames| > capacity
        invariant |frames| <= |all| && frames == all[|all| - |frames|..]
        invariant |all| > capacity ==> |frames| >= capacity
        invariant |all| <= capacity ==> frames == all
      {
        TailOfTail(all, |all| - |frames|, 1);
        frames := frames[1..];
      }
    }

    method Fulfill(request: Request) returns (response: Option<Response>)
      ensures response == Fulfilled(frames, request)
    {
      var p := PositionFrom(frames, request.key, 0);
      if p == |frames| {
        return None;
      }
      var frame := frames[p];
      var datagrams;
      match request {
        case WholeFrame(_) => datagrams := Numbered(frame.datagrams);
        case SomeDatagrams(_, indices) => datagrams := Selected(frame.datagrams, indices);
      }
      response := if datagrams == [] then None else Some(Response(frame.key, datagrams));
    }
  }

  // ----- the store refines the history of insertions

  /** The store after these frames were inserted in order. */
  function StoreAfter(capacity: nat, history: seq<EncodedFrame>): seq<StoredFrame> {
    if history == [] then []
    else Inserted(StoreAfter(capacity, history[..|history| - 1]), capacity, history[|history| - 1])
  }

  /** No later frame has the key of frame `p`. */
  ghost predicate IsLatest(history: seq<EncodedFrame>, p: nat)
    requires p < |history|
  {
    forall q | p < q < |history| :: KeyOfFrame(history[q]) != KeyOfFrame(history[p])
  }

  /** Positions from `p` on whose frames were not replaced, in order. */
  ghost function LatestFrom(history: seq<EncodedFrame>, p: nat): seq<nat>
    requires p <= |history|
    decreases |history| - p
  {
    if p == |history| then [] else (if IsLatest(history, p) then [p] else []) + LatestFrom(history, p + 1)
  }

  ghost function FramesAt(history: seq<EncodedFrame>, positions: seq<nat>): (frames: seq<StoredFrame>)
    requires forall i | 0 <= i < |positions| :: positions[i] < |history|
    ensures |frames| == |positions| && forall i | 0 <= i < |frames| :: frames[i] == Stored(history[positions[i]])
  {
    seq(|positions|, i requires 0 <= i < |positions| => Stored(history[positions[i]]))
  }

  lemma {:induction false} LatestBounds(history: seq<EncodedFrame>, p: nat)
    requires p <= |history|
    ensures forall i | 0 <= i < |LatestFrom(history, p)| ::
              p <= LatestFrom(history, p)[i] < |history| && IsLatest(history, LatestFrom(history, p)[i])
    ensures forall i, j | 0 <= i < j < |LatestFrom(history, p)| :: LatestFrom(history, p)[i] < LatestFrom(history, p)[j]
    ensures forall q: nat | p <= q < |history| && IsLatest(history, q) :: q in LatestFrom(history, p)
    decreases |history| - p
  {
    hide IsLatest;
    if p < |history| {
      LatestBounds(history, p + 1);
    }
  }

  /** The frames of all latest positions. */
  ghost function LatestFrames(history: seq<EncodedFrame>, p: nat): seq<StoredFrame>
    requires p <= |history|
  {
    LatestBounds(history, p);
    FramesAt(history, LatestFrom(history, p))
  }

  lemma LatestFramesStep(history: seq<EncodedFrame>, p: nat)
    requires p < |history|
    ensures LatestFrames(history, p)
            == (if IsLatest(history, p) then [Stored(history[p])] else []) + LatestFrames(history, p + 1)
  {
    hide IsLatest;
    LatestBounds(history, p);
    LatestBounds(history, p + 1);
  }

  ghost predicate DistinctKeys(frames: seq<StoredFrame>) {
    forall i, j | 0 <= i < j < |frames| :: frames[i].key != frames[j].key
  }

  lemma LatestKeysDistinct(history: seq<EncodedFrame>, p: nat)
    requires p <= |history|
    ensures DistinctKeys(LatestFrames(history, p))
  {
    LatestBounds(history, p);
  }

  /** Removing a key from frames with another one in front. */
  lemma RemoveBehind(front: StoredFrame, rest: seq<StoredFrame>, key: Key)
    requires front.key != key
    ensures RemoveKey([front] + rest, key) == [front] + RemoveKey(rest, key)
  {
    var all := [front] + rest;
    var p, q := PositionFrom(all, key, 0), PositionFrom(rest, key, 0);
    assert forall i | 0 <= i < |rest| :: all[i + 1] == rest[i];
    if q < |rest| {
      assert all[q + 1].key == key;
      assert p == q + 1;
    } else {
      assert p == |all|;
    }
  }

  lemma RemoveFront(front: StoredFrame, rest: seq<StoredFrame>)
    ensures RemoveKey([front] + rest, front.key) == rest
  {
    assert PositionFrom([front] + rest, front.key, 0) == 0;
  }

  ghost predicate NoKey(frames: seq<StoredFrame>, key: Key) {
    forall i | 0 <= i < |frames| :: frames[i].key != key
  }

  lemma RemoveAbsent(frames: seq<StoredFrame>, key: Key)
    requires NoKey(frames, key)
    ensures RemoveKey(frames, key) == frames
  {
  }

  lemma LatestUnlessReplaced(history: seq<EncodedFrame>, frame: EncodedFrame, p: nat)
    requires p < |history|
    ensures IsLatest(history + [frame], p) <==> IsLatest(history, p) && KeyOfFrame(history[p]) != KeyOfFrame(frame)
  {
    var all := history + [frame];
    assert forall q | 0 <= q < |history| :: history[q] == all[q];
    assert all[|history|] == frame;
  }

  /** One more frame: the one it replaces goes, the new one comes last. */
  lemma {:induction false} LatestAppend(history: seq<EncodedFrame>, frame: EncodedFrame, p: nat)
    requires p <= |history|
    ensures LatestFrames(history + [frame], p)
            == RemoveKey(LatestFrames(history, p), KeyOfFrame(frame)) + [Stored(frame)]
    decreases |history| - p
  {
    hide RemoveKey, LatestFrames, IsLatest;
    var all, key := history + [frame], KeyOfFrame(frame);
    LatestFramesStep(all, p);
    if p == |history| {
      NoLatest(all);
      NewestIsLatest(all);
      NoLatest(history);
      RemoveAbsent([], key);
    } else {
      LatestAppend(history, frame, p + 1);
      LatestFramesStep(history, p);
      var rest := LatestFrames(history, p + 1);
      LatestUnlessReplaced(history, frame, p);
      assert all[p] == history[p];
      if IsLatest(history, p) {
        if KeyOfFrame(history[p]) == key {
          RemoveFront(Stored(history[p]), rest);
          LatestHaveNoKey(history, p, key);
          RemoveAbsent(rest, key);
        } else {
          RemoveBehind(Stored(history[p]), rest, key);
          assert ([Stored(history[p])] + RemoveKey(rest, key)) + [Stored(frame)]
              == [Stored(history[p])] + (RemoveKey(rest, key) + [Stored(frame)]);
        }
      } else {
        assert [] + rest == rest;
      }
    }
  }

  lemma NewestIsLatest(history: seq<EncodedFrame>)
    requires history != []
    ensures IsLatest(history, |history| - 1)
  {
  }

  lemma NoLatest(history: seq<EncodedFrame>)
    ensures LatestFrames(history, |history|) == []
  {
  }

  lemma LatestHaveNoKey(history: seq<EncodedFrame>, p: nat, key: Key)
    requires p < |history| && IsLatest(history, p) && KeyOfFrame(history[p]) == key
    ensures NoKey(LatestFrames(history, p + 1), key)
  {
    LatestBounds(history, p + 1);
  }

  lemma LastAppend(frames: seq<StoredFrame>, capacity: nat, newest: StoredFrame)
    requires capacity > 0
    ensures Last(frames + [newest], capacity) == Last(frames, capacity - 1) + [newest]
  {
  }

  /** Where the key is found in a tail of the frames. */
  lemma PositionInTail(frames: seq<StoredFrame>, cut: nat, key: Key)
    requires DistinctKeys(frames) && cut <= |frames|
    ensures var p, q := PositionFrom(frames, key, 0), PositionFrom(frames[cut..], key, 0);
            q == if p < cut then |frames| - cut else p - cut
  {
    var kept := frames[cut..];
    assert forall i | 0 <= i < |kept| :: kept[i] == frames[cut + i];
    var p, q := PositionFrom(frames, key, 0), PositionFrom(kept, key, 0);
    if cut <= p < |frames| {
      assert kept[p - cut].key == key;
    }
  }

  lemma LastOfLast<T>(s: seq<T>, c: nat, d: nat)
    requires d <= c
    ensures Last(Last(s, c), d) == Last(s, d)
  {
  }

  lemma LastAfterRemoval<T>(s: seq<T>, p: nat, d: nat)
    requires p + d < |s|
    ensures Last(RemoveAt(s, p), d) == Last(s, d)
  {
  }

  lemma RemovedInTail<T>(s: seq<T>, cut: nat, p: nat)
    requires cut <= p < |s|
    ensures RemoveAt(s[cut..], p - cut) == RemoveAt(s, p)[cut..]
  {
  }

  /** Dropping the oldest before or after a removal leaves the same newest frames. */
  lemma LastOfRemoved(frames: seq<StoredFrame>, capacity: nat, key: Key)
    requires DistinctKeys(frames) && capacity > 0
    ensures Last(RemoveKey(Last(frames, capacity), key), capacity - 1) == Last(RemoveKey(frames, key), capacity - 1)
  {
    hide DistinctKeys, PositionFrom, Last, RemoveAt;
    LastIs(frames, capacity);
    if |frames| > capacity {
      var cut := |frames| - capacity;
      var p := PositionFrom(frames, key, 0);
      PositionInTail(frames, cut, key);
      LastOfLast(frames, capacity, capacity - 1);
      if p < cut {
        LastAfterRemoval(frames, p, capacity - 1);
      } else if p < |frames| {
        RemovedInTail(frames, cut, p);
        LastIs(RemoveAt(frames, p), capacity - 1);
        LastIs(RemoveAt(frames, p)[cut..], capacity - 1);
      }
    }
  }

  lemma LastIs<T>(s: seq<T>, n: nat)
    ensures Last(s, n) == if |s| <= n then s else s[|s| - n..]
  {
  }

  /**
   After any insertions the store holds the last `capacity` distinct keys in the order of their
   latest insertion, each with the bytes of its latest frame.
   */
  lemma {:induction false} StoreIsLatest(capacity: nat, history: seq<EncodedFrame>)
    requires capacity > 0
    ensures StoreAfter(capacity, history) == Last(LatestFrames(history, 0), capacity)
    decreases |history|
  {
    hide RemoveKey, LatestFrames, Last;
    if history == [] {
      NoLatest(history);
      LastOfNothing(capacity);
    } else {
      var before, frame := history[..|history| - 1], history[|history| - 1];
      StoreIsLatest(capacity, before);
      assert before + [frame] == history;
      LatestAppend(before, frame, 0);
      LatestKeysDistinct(before, 0);
      LastOfRemoved(LatestFrames(before, 0), capacity, KeyOfFrame(frame));
      LastAppend(RemoveKey(LatestFrames(before, 0), KeyOfFrame(frame)), capacity, Stored(frame));
      LastAppend(RemoveKey(StoreAfter(capacity, before), KeyOfFrame(frame)), capacity, Stored(frame));
    }
  }

  lemma LastOfNothing(capacity: nat)
    ensures Last<StoredFrame>([], capacity) == []
  {
  }

  // ----- what a request gets

  /** Some position's frame is stored: not replaced, and among the last `capacity` of those. */
  ghost predicate Available(capacity: nat, history: seq<EncodedFrame>, p: nat) {
    && p < |history| && IsLatest(history, p)
    && |LatestFrom(history, p)| <= capacity
  }

  lemma {:induction false} LatestSplit(history: seq<EncodedFrame>, p: nat, q: nat)
    requires p <= q <= |history|
    ensures exists front :: LatestFrames(history, p) == front + LatestFrames(history, q)
    decreases q - p
  {
    hide LatestFrames;
    if p == q {
      assert LatestFrames(history, p) == [] + LatestFrames(history, q);
    } else {
      LatestSplit(history, p + 1, q);
      LatestFramesStep(history, p);
      var front :| LatestFrames(history, p + 1) == front + LatestFrames(history, q);
      var head := if IsLatest(history, p) then [Stored(history[p])] else [];
      assert LatestFrames(history, p) == (head + front) + LatestFrames(history, q);
    }
  }

  /** The stored frame of a key is its latest, exactly while fewer than `capacity` newer keys came. */
  lemma GetFindsLatest(capacity: nat, history: seq<EncodedFrame>, p: nat)
    requires capacity > 0 && p < |history| && IsLatest(history, p)
    ensures Get(StoreAfter(capacity, history), KeyOfFrame(history[p]))
            == if Available(capacity, history, p) then Some(Stored(history[p])) else None
    ensures Available(capacity, history, p) ==>
              var (frame, found) := (history[p], Get(StoreAfter(capacity, history), KeyOfFrame(history[p])).value);
              && found.key == Key(frame.metadata.streamId, frame.metadata.sequence) && found.metadata == frame.metadata
              && found.datagrams == frame.datagrams && found.stats == StatsOf(frame.blocks, frame.datagrams)
  {
    hide LatestFrames, IsLatest, StoreAfter;
    StoreIsLatest(capacity, history);
    LatestKeysDistinct(history, 0);
    LatestSplit(history, 0, p);
    LatestFramesStep(history, p);
    LatestLength(history, p);
    var all, rest := LatestFrames(history, 0), LatestFrames(history, p);
    var front :| all == front + rest;
    assert all[|front|] == Stored(history[p]);
    FindInLast(all, capacity, |front|);
  }

  lemma LatestLength(history: seq<EncodedFrame>, p: nat)
    requires p <= |history|
    ensures |LatestFrames(history, p)| == |LatestFrom(history, p)|
  {
  }

  lemma FindInLast(frames: seq<StoredFrame>, capacity: nat, at: nat)
    requires DistinctKeys(frames) && at < |frames|
    ensures Get(Last(frames, capacity), frames[at].key) == if |frames| - at <= capacity then Some(frames[at]) else None
  {
    hide DistinctKeys, PositionFrom;
    var key := frames[at].key;
    FoundAt(frames, at);
    if |frames| > capacity {
      PositionInTail(frames, |frames| - capacity, key);
    }
  }

  lemma FoundAt(frames: seq<StoredFrame>, at: nat)
    requires DistinctKeys(frames) && at < |frames|
    ensures PositionFrom(frames, frames[at].key, 0) == at
  {
    var p := PositionFrom(frames, frames[at].key, 0);
    assert p <= at;
  }

  /** A key never inserted is not found. */
  lemma GetFindsNothingElse(capacity: nat, history: seq<EncodedFrame>, key: Key)
    requires capacity > 0 && forall p | 0 <= p < |history| :: KeyOfFrame(history[p]) != key
    ensures Get(StoreAfter(capacity, history), key) == None
  {
    StoreIsLatest(capacity, history);
    LatestBounds(history, 0);
  }

  ghost predicate AnyExists(datagrams: seq<Bytes>, indices: seq<nat>) {
    exists i :: i in indices && i < |datagrams|
  }

  ghost predicate OnlyRequested(datagrams: seq<Bytes>, indices: seq<nat>, selected: seq<StoredDatagram>) {
    forall d | d in selected :: d.index in indices && d.index < |datagrams| && d.bytes == datagrams[d.index]
  }

  lemma {:induction false} SelectedAre(datagrams: seq<Bytes>, indices: seq<nat>)
    ensures OnlyRequested(datagrams, indices, Selected(datagrams, indices))
    ensures forall i | i in indices && i < |datagrams| :: StoredDatagram(i, datagrams[i]) in Selected(datagrams, indices)
    ensures Selected(datagrams, indices) != [] <==> AnyExists(datagrams, indices)
  {
    if indices != [] {
      SelectedAre(datagrams, indices[1..]);
    }
  }

  /** The positions `at` are those of the requested indices that exist, in order; the answer follows them. */
  ghost predicate Follows(datagrams: seq<Bytes>, indices: seq<nat>, at: seq<nat>, answer: seq<StoredDatagram>) {
    && |answer| == |at|
    && (forall k | 0 <= k < |at| :: at[k] < |indices| && indices[at[k]] < |datagrams|)
    && (forall k, l | 0 <= k < l < |at| :: at[k] < at[l])
    && (forall p: nat | p < |indices| && indices[p] < |datagrams| :: p in at)
    && (forall k | 0 <= k < |at| :: answer[k] == StoredDatagram(indices[at[k]], datagrams[indices[at[k]]]))
  }

  ghost predicate InRequestOrder(datagrams: seq<Bytes>, indices: seq<nat>, answer: seq<StoredDatagram>) {
    exists at :: Follows(datagrams, indices, at, answer)
  }

  lemma {:induction false} SelectedInOrder(datagrams: seq<Bytes>, indices: seq<nat>)
    ensures InRequestOrder(datagrams, indices, Selected(datagrams, indices))
    decreases |indices|
  {
    if indices == [] {
      assert Follows(datagrams, indices, [], []);
    } else {
      hide Selected, Follows;
      var n := |indices| - 1;
      SelectedInOrder(datagrams, indices[..n]);
      SelectedAppend(datagrams, indices[..n], indices[n]);
      assert indices == indices[..n] + [indices[n]];
      var at :| Follows(datagrams, indices[..n], at, Selected(datagrams, indices[..n]));
      NextFollows(datagrams, indices, at, Selected(datagrams, indices[..n]));
    }
  }

  lemma {:induction false} SelectedAppend(datagrams: seq<Bytes>, indices: seq<nat>, index: nat)
    ensures Selected(datagrams, indices + [index])
            == Selected(datagrams, indices) + if index < |datagrams| then [StoredDatagram(index, datagrams[index])] else []
  {
    if indices == [] {
      assert [index][1..] == [];
    } else {
      assert (indices + [index])[1..] == indices[1..] + [index];
      SelectedAppend(datagrams, indices[1..], index);
    }
  }

  lemma NextFollows(datagrams: seq<Bytes>, indices: seq<nat>, at: seq<nat>, answer: seq<StoredDatagram>)
    requires indices != [] && Follows(datagrams, indices[..|indices| - 1], at, answer)
    ensures var n := |indices| - 1;
            InRequestOrder(datagrams, indices,
                           answer + if indices[n] < |datagrams| then [StoredDatagram(indices[n], datagrams[indices[n]])] else [])
  {
    var n := |indices| - 1;
    if indices[n] < |datagrams| {
      assert Follows(datagrams, indices, at + [n], answer + [StoredDatagram(indices[n], datagrams[indices[n]])]);
    } else {
      assert answer + [] == answer;
      assert Follows(datagrams, indices, at, answer);
    }
  }

  /**
   A request for datagrams of a key gets, in request order, exactly the requested ones of the key's
   latest frame that exist, and nothing at all once `capacity` newer keys came or none exists.
   */
  lemma RequestAnswered(capacity: nat, history: seq<EncodedFrame>, p: nat, indices: seq<nat>)
    requires capacity > 0 && p < |history| && IsLatest(history, p)
    ensures var response := Fulfilled(StoreAfter(capacity, history), SomeDatagrams(KeyOfFrame(history[p]), indices));
            var datagrams := history[p].datagrams;
            && (response.Some? <==> Available(capacity, history, p) && AnyExists(datagrams, indices))
            && (response.Some? ==>
                  && response.value.key == Key(history[p].metadata.streamId, history[p].metadata.sequence)
                  && InRequestOrder(datagrams, indices, response.value.datagrams))
  {
    hide StoreAfter, Available, IsLatest, Get, Selected, AnyExists, OnlyRequested, InRequestOrder;
    SelectedInOrder(history[p].datagrams, indices);
    GetFindsLatest(capacity, history, p);
    SelectedAre(history[p].datagrams, indices);
  }

  /** A request for a whole frame gets every datagram of the latest one, under its index. */
  lemma WholeFrameAnswered(capacity: nat, history: seq<EncodedFrame>, p: nat)
    requires capacity > 0 && p < |history| && IsLatest(history, p)
    ensures var response := Fulfilled(StoreAfter(capacity, history), WholeFrame(KeyOfFrame(history[p])));
            var datagrams := history[p].datagrams;
            && (response.Some? <==> Available(capacity, history, p) && datagrams != [])
            && (response.Some? ==>
                  && response.value.key == KeyOfFrame(history[p]) && |response.value.datagrams| == |datagrams|
                  && forall i | 0 <= i < |datagrams| :: response.value.datagrams[i] == StoredDatagram(i, datagrams[i]))
  {
    hide StoreAfter, Available, IsLatest, Get;
    GetFindsLatest(capacity, history, p);
  }
}
