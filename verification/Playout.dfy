/**
 The exact-or-missing playout buffer: at most one epoch per timestamp, a bounded number of them,
 none at or before the last timestamp played.
 */
module Playout {
  import opened Assembly
  import opened MachineInts
  import opened Wrappers

  datatype Buffer = Buffer(epochs: map<u64, DecodedEpoch>, max: nat, lastPlayed: Option<u64>)

  datatype InsertOutcome = Inserted | DuplicateOrLate | EvictedStale(count: nat)

  datatype Read = Exact(epoch: DecodedEpoch) | Missing(ptsSamples: u64)

  function NewBuffer(max: nat): Buffer {
    Buffer(map[], Max(max, 1), None)
  }

  predicate IsLate(b: Buffer, pts: u64) {
    b.lastPlayed.Some? && pts <= b.lastPlayed.value
  }

  ghost predicate IsMinKey(epochs: map<u64, DecodedEpoch>, pts: u64) {
    pts in epochs && forall k | k in epochs :: pts <= k
  }

  lemma {:induction false} MinKeyExists(epochs: map<u64, DecodedEpoch>)
    requires epochs != map[]
    ensures exists pts :: IsMinKey(epochs, pts)
    decreases |epochs|
  {
    var k :| k in epochs;
    var rest := epochs - {k};
    assert forall x | x in epochs && x != k :: x in rest;
    if rest == map[] {
      assert IsMinKey(epochs, k);
    } else {
      assert rest.Keys == epochs.Keys - {k};
      MinKeyExists(rest);
      var m :| IsMinKey(rest, m);
      assert IsMinKey(epochs, if k <= m then k else m);
    }
  }

  ghost function MinKey(epochs: map<u64, DecodedEpoch>): u64
    requires epochs != map[]
    ensures IsMinKey(epochs, MinKey(epochs))
  {
    MinKeyExists(epochs);
    var pts :| IsMinKey(epochs, pts);
    pts
  }

  lemma MinKeyIs(epochs: map<u64, DecodedEpoch>, pts: u64)
    requires IsMinKey(epochs, pts)
    ensures epochs != map[] && MinKey(epochs) == pts
  {
    assert pts in epochs;
    assert IsMinKey(epochs, MinKey(epochs));
  }

  lemma RemoveKey(epochs: map<u64, DecodedEpoch>, pts: u64)
    requires pts in epochs
    ensures |epochs - {pts}| == |epochs| - 1
  {
    assert (epochs - {pts}).Keys == epochs.Keys - {pts};
  }

  /** The buffer without its `count` earliest epochs. */
  ghost function WithoutEarliest(epochs: map<u64, DecodedEpoch>, count: nat): map<u64, DecodedEpoch>
    decreases count
  {
    if count == 0 || epochs == map[] then epochs else WithoutEarliest(epochs - {MinKey(epochs)}, count - 1)
  }

  /** The earliest go: everything removed lies before everything kept. */
  lemma {:induction false} WithoutEarliestIs(epochs: map<u64, DecodedEpoch>, count: nat)
    requires count <= |epochs|
    ensures var kept := WithoutEarliest(epochs, count);
            && |kept| == |epochs| - count
            && (forall k | k in kept :: k in epochs && kept[k] == epochs[k])
            && (forall j, k | j in epochs && j !in kept && k in kept :: j < k)
    decreases count
  {
    hide MinKey;
    if count > 0 {
      var earliest := MinKey(epochs);
      RemoveKey(epochs, earliest);
      WithoutEarliestIs(epochs - {earliest}, count - 1);
      assert IsMinKey(epochs, earliest);
    }
  }

  /** `insert` */
  ghost function BufferInsert(b: Buffer, epoch: DecodedEpoch): (Buffer, InsertOutcome) {
    if IsLate(b, epoch.ptsSamples) || epoch.ptsSamples in b.epochs then (b, DuplicateOrLate)
    else
      var grown := b.epochs[epoch.ptsSamples := epoch];
      if |grown| <= b.max then (b.(epochs := grown), Inserted)
      else (b.(epochs := WithoutEarliest(grown, |grown| - b.max)), EvictedStale(|grown| - b.max))
  }

  function From(epochs: map<u64, DecodedEpoch>, pts: u64): map<u64, DecodedEpoch> {
    map k | k in epochs && k >= pts :: epochs[k]
  }

  function Before(epochs: map<u64, DecodedEpoch>, pts: u64): set<u64> {
    set k | k in epochs && k < pts
  }

  /** `expire_before` */
  function BufferExpire(b: Buffer, pts: u64): (Buffer, nat) {
    (b.(epochs := From(b.epochs, pts)), |Before(b.epochs, pts)|)
  }

  /** `take_for_playout` */
  function BufferTake(b: Buffer, pts: u64): (Buffer, Read) {
    var kept := From(b.epochs, pts);
    (Buffer(kept - {pts}, b.max, Some(pts)), if pts in kept then Exact(kept[pts]) else Missing(pts))
  }

  // ----- what the operations do, key by key

  /**
   An epoch that is late or already there changes nothing. Otherwise it joins, and if that makes more
   than `max` the buffer keeps as many as it holds, all of them later than every one it lets go.
   */
  ghost predicate InsertedInto(b: Buffer, epoch: DecodedEpoch, b': Buffer, r: InsertOutcome) {
    var pts := epoch.ptsSamples;
    var keys := b.epochs.Keys + {pts};
    && b'.max == b.max && b'.lastPlayed == b.lastPlayed
    && if (b.lastPlayed.Some? && pts <= b.lastPlayed.value) || pts in b.epochs then b' == b && r == DuplicateOrLate
       else
         && b'.epochs.Keys <= keys && |b'.epochs| == (if |keys| <= b.max then |keys| else b.max)
         && (forall j, k | j in keys && j !in b'.epochs && k in b'.epochs :: j < k)
         && (forall k | k in b'.epochs :: b'.epochs[k] == if k == pts then epoch else b.epochs[k])
         && r == if |keys| <= b.max then Inserted else EvictedStale(|keys| - b.max)
  }

  lemma SameSize(epochs: map<u64, DecodedEpoch>, keys: set<u64>)
    requires epochs.Keys == keys
    ensures |epochs| == |keys|
  {
  }

  lemma Evicted(b: Buffer, epoch: DecodedEpoch, kept: map<u64, DecodedEpoch>)
    requires var grown := b.epochs[epoch.ptsSamples := epoch];
             && !IsLate(b, epoch.ptsSamples) && epoch.ptsSamples !in b.epochs
             && |grown| == |b.epochs.Keys + {epoch.ptsSamples}| > b.max == |kept|
             && (forall k | k in kept :: k in grown && kept[k] == grown[k])
             && forall j, k | j in grown && j !in kept && k in kept :: j < k
    ensures InsertedInto(b, epoch, b.(epochs := kept), EvictedStale(|b.epochs.Keys + {epoch.ptsSamples}| - b.max))
  {
  }

  lemma Refused(b: Buffer, epoch: DecodedEpoch)
    requires IsLate(b, epoch.ptsSamples) || epoch.ptsSamples in b.epochs
    ensures InsertedInto(b, epoch, b, DuplicateOrLate)
  {
  }

  lemma Joined(b: Buffer, epoch: DecodedEpoch)
    requires !IsLate(b, epoch.ptsSamples) && epoch.ptsSamples !in b.epochs
    requires |b.epochs[epoch.ptsSamples := epoch]| == |b.epochs.Keys + {epoch.ptsSamples}| <= b.max
    ensures InsertedInto(b, epoch, b.(epochs := b.epochs[epoch.ptsSamples := epoch]), Inserted)
  {
  }

  lemma InsertIs(b: Buffer, epoch: DecodedEpoch)
    ensures InsertedInto(b, epoch, BufferInsert(b, epoch).0, BufferInsert(b, epoch).1)
  {
    hide WithoutEarliest, InsertedInto;
    var pts := epoch.ptsSamples;
    if IsLate(b, pts) || pts in b.epochs {
      Refused(b, epoch);
    } else {
      var grown := b.epochs[pts := epoch];
      assert grown.Keys == b.epochs.Keys + {pts};
      SameSize(grown, b.epochs.Keys + {pts});
      if |grown| > b.max {
        WithoutEarliestIs(grown, |grown| - b.max);
        Evicted(b, epoch, WithoutEarliest(grown, |grown| - b.max));
      } else {
        Joined(b, epoch);
      }
    }
  }

  /** A read gives the epoch under its timestamp if it is there, and leaves exactly the later ones. */
  ghost predicate ReadFrom(b: Buffer, pts: u64, b': Buffer, read: Read) {
    && b'.max == b.max && b'.lastPlayed == Some(pts)
    && (forall k :: k in b'.epochs <==> k in b.epochs && k > pts)
    && (forall k | k in b'.epochs :: b'.epochs[k] == b.epochs[k])
    && read == if pts in b.epochs then Exact(b.epochs[pts]) else Missing(pts)
  }

  lemma ReadIs(b: Buffer, pts: u64)
    ensures ReadFrom(b, pts, BufferTake(b, pts).0, BufferTake(b, pts).1)
  {
  }

  /** Expiry leaves exactly what is not earlier, and counts the rest. */
  ghost predicate ExpiredFrom(b: Buffer, pts: u64, b': Buffer, count: nat) {
    && b'.max == b.max && b'.lastPlayed == b.lastPlayed
    && (forall k :: k in b'.epochs <==> k in b.epochs && k >= pts)
    && (forall k | k in b'.epochs :: b'.epochs[k] == b.epochs[k])
    && |b'.epochs| + count == |b.epochs|
  }

  lemma ExpiryIs(b: Buffer, pts: u64)
    ensures ExpiredFrom(b, pts, BufferExpire(b, pts).0, BufferExpire(b, pts).1)
  {
    FromAndBefore(b.epochs, pts);
  }

  lemma FromAndBefore(epochs: map<u64, DecodedEpoch>, pts: u64)
    ensures |From(epochs, pts)| + |Before(epochs, pts)| == |epochs|
  {
    assert From(epochs, pts).Keys + Before(epochs, pts) == epochs.Keys;
    assert From(epochs, pts).Keys !! Before(epochs, pts);
    assert |From(epochs, pts).Keys + Before(epochs, pts)| == |From(epochs, pts).Keys| + |Before(epochs, pts)|;
  }

  class ExactPlayoutBuffer {
    var epochs: map<u64, DecodedEpoch>
    const max: nat
    var lastPlayed: Option<u64>

    ghost function Abs(): Buffer
      reads this
    {
      Buffer(epochs, max, lastPlayed)
    }

    constructor (max: nat)
      ensures Abs() == NewBuffer(max)
    {
      epochs, this.max, lastPlayed := map[], Max(max, 1), None;
    }

    method Insert(epoch: DecodedEpoch) returns (r: InsertOutcome)
      modifies this
      ensures (Abs(), r) == BufferInsert(old(Abs()), epoch)
      ensures InsertedInto(old(Abs()), epoch, Abs(), r)
    {
      InsertIs(Abs(), epoch);
      hide InsertedInto;
      var pts := epoch.ptsSamples;
      if (lastPlayed.Some? && pts <= lastPlayed.value) || pts in epochs {
        return DuplicateOrLate;
      }
      epochs := epochs[pts := epoch];
      if |epochs| <= max {
        return Inserted;
      }
      var overflow := |epochs| - max;
      for removed := 0 to overflow
        invariant lastPlayed == old(lastPlayed)
        invariant |epochs| == max + overflow - removed
        invariant WithoutEarliest(epochs, overflow - removed) == WithoutEarliest(old(epochs)[pts := epoch], overflow)
      {
        hide MinKey;
        var earliest := Earliest();
        RemoveKey(epochs, earliest);
        epochs := epochs - {earliest};
      }
      return EvictedStale(overflow);
    }

    method Earliest() returns (pts: u64)
      requires epochs != map[]
      ensures pts in epochs && pts == MinKey(epochs)
    {
      var pending := epochs.Keys;
      pts :| pts in pending;
      pending := pending - {pts};
      while pending != {}
        invariant pts in epochs && pending <= epochs.Keys
        invariant forall x | x in epochs && x !in pending :: pts <= x
        decreases pending
      {
        var k :| k in pending;
        pts, pending := if k < pts then k else pts, pending - {k};
      }
      MinKeyIs(epochs, pts);
    }

    method ExpireBefore(pts: u64) returns (count: nat)
      modifies `epochs
      ensures (Abs(), count) == BufferExpire(old(Abs()), pts)
      ensures ExpiredFrom(old(Abs()), pts, Abs(), count)
    {
      ExpiryIs(Abs(), pts);
      hide ExpiredFrom;
      var stale := Before(epochs, pts);
      count := |stale|;
      var pending := stale;
      while pending != {}
        invariant pending <= stale
        invariant forall k :: k in epochs <==> k in old(epochs) && (k >= pts || k in pending)
        invariant forall k | k in epochs :: epochs[k] == old(epochs)[k]
        decreases pending
      {
        var k :| k in pending;
        epochs, pending := epochs - {k}, pending - {k};
      }
      assert epochs == From(old(epochs), pts);
    }

    method TakeForPlayout(pts: u64) returns (r: Read)
      modifies this
      ensures (Abs(), r) == BufferTake(old(Abs()), pts)
      ensures ReadFrom(old(Abs()), pts, Abs(), r)
    {
      ReadIs(Abs(), pts);
      hide ReadFrom, ExpiredFrom;
      lastPlayed := Some(pts);
      var _ := ExpireBefore(pts);
      r := if pts in epochs then Exact(epochs[pts]) else Missing(pts);
      epochs := epochs - {pts};
    }
  }
}
