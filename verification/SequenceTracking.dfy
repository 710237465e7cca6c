/**
 Loss accounting over wrapping 32-bit packet sequence numbers. `Observed` is the tracker's transition;
 the class performs it in place. Positions are unwrapped packet numbers: the history a sender knows
 and the tracker reconstructs only modulo 2^32.
 */
module SequenceTracking {
  import opened Collections
  import opened MachineInts
  import opened Wrappers

  const MAX_TRACKED_GAP := 4096
  const HALF_SPAN := 0x8000_0000

  datatype Stats = Stats(received: u64, missing: nat, duplicateOrReordered: u64, highestSeen: Option<u32>)

  datatype Observation = Observation(sequence: u32, expected: u32, missingBefore: u32, duplicateOrReordered: bool)

  datatype Tracker = Tracker(nextExpected: Option<u32>, missing: set<u32>, future: set<u32>, stats: Stats)

  const FRESH := Tracker(None, {}, {}, Stats(0, 0, 0, None))

  /** `count` consecutive wrapping numbers from `from` on */
  function Numbers(from: u32, count: nat): set<u32>
    decreases count
  {
    if count == 0 then {} else {from} + Numbers(WrapAdd32(from, 1), count - 1)
  }

  datatype Cursor = Cursor(next: u32, missing: set<u32>, future: set<u32>)

  /** Move past every number already received out of order. */
  function SkipReceived(next: u32, missing: set<u32>, future: set<u32>): Cursor
    decreases |future|
  {
    if next in future then SkipReceived(WrapAdd32(next, 1), missing - {next}, future - {next})
    else Cursor(next, missing, future)
  }

  /** `advance_expected` */
  function Advance(sequence: u32, missing: set<u32>, future: set<u32>): Cursor {
    SkipReceived(WrapAdd32(sequence, 1), missing - {sequence}, future)
  }

  function HighestSeen(highest: Option<u32>, sequence: u32): u32 {
    if highest.None? || WrapSub32(sequence, highest.value) <= I32_MAX then sequence else highest.value
  }

  function Observed(t: Tracker, sequence: u32): (Tracker, Observation) {
    var expected := if t.nextExpected.Some? then t.nextExpected.value else sequence;
    var diff := WrapSub32(sequence, expected);
    var forward := t.nextExpected.None? || diff <= I32_MAX;
    var pending := t.missing - {sequence};
    var moved :=
      if t.nextExpected.None? then Cursor(WrapAdd32(sequence, 1), t.missing, t.future)
      else if sequence in t.missing then
        if sequence == expected then Advance(sequence, pending, t.future) else Cursor(expected, pending, t.future)
      else if forward && diff == 0 then Advance(sequence, t.missing, t.future)
      else if forward then
        Cursor(expected, t.missing + Numbers(expected, Min(diff, MAX_TRACKED_GAP)), t.future + {sequence})
      else Cursor(expected, t.missing, t.future);
    var irregular := !forward
      || (t.nextExpected.Some? && (sequence in t.missing || (diff != 0 && sequence in t.future)));
    var stats := Stats(SatAdd(t.stats.received, 1), |moved.missing|,
                       if irregular then SatAdd(t.stats.duplicateOrReordered, 1) else t.stats.duplicateOrReordered,
                       Some(HighestSeen(t.stats.highestSeen, sequence)));
    (Tracker(Some(moved.next), moved.missing, moved.future, stats),
     Observation(sequence, expected, if forward then diff else 0, irregular))
  }

  class SequenceTracker {
    var nextExpected: Option<u32>
    var missing: set<u32>
    var future: set<u32>
    var stats: Stats

    ghost function Abs(): Tracker
      reads this
    {
      Tracker(nextExpected, missing, future, stats)
    }

    constructor ()
      ensures Abs() == FRESH
    {
      nextExpected, missing, future, stats := None, {}, {}, Stats(0, 0, 0, None);
    }

    method Observe(sequence: u32) returns (seen: Observation)
      modifies this
      ensures (Abs(), seen) == Observed(old(Abs()), sequence)
    {
      var expected := if nextExpected.Some? then nextExpected.value else sequence;
      var diff := WrapSub32(sequence, expected);
      var forward := nextExpected.None? || diff <= I32_MAX;
      var irregular := !forward;
      var highest := HighestSeen(stats.highestSeen, sequence);

      if nextExpected.None? {
        nextExpected := Some(WrapAdd32(sequence, 1));
      } else if sequence in missing {
        missing := missing - {sequence};
        irregular := true;
        if sequence == expected {
          AdvanceExpected(sequence);
        }
      } else if forward {
        if diff == 0 {
          AdvanceExpected(sequence);
        } else {
          RecordGap(expected, Min(diff, MAX_TRACKED_GAP));
          if sequence in future {
            irregular := true;
          }
          future := future + {sequence};
        }
      }
      stats := Stats(SatAdd(stats.received, 1), |missing|,
                     if irregular then SatAdd(stats.duplicateOrReordered, 1) else stats.duplicateOrReordered,
                     Some(highest));
      seen := Observation(sequence, expected, if forward then diff else 0, irregular);
    }

    method RecordGap(from: u32, count: nat)
      modifies `missing
      ensures missing == old(missing) + Numbers(from, count)
    {
      var number := from;
      for i := 0 to count
        invariant missing + Numbers(number, count - i) == old(missing) + Numbers(from, count)
      {
        missing := missing + {number};
        number := WrapAdd32(number, 1);
      }
    }

    method AdvanceExpected(sequence: u32)
      modifies `nextExpected, `missing, `future
      ensures nextExpected.Some?
      ensures Cursor(nextExpected.value, missing, future) == Advance(sequence, old(missing), old(future))
    {
      missing := missing - {sequence};
      var next := WrapAdd32(sequence, 1);
      while next in future
        invariant SkipReceived(next, missing, future) == Advance(sequence, old(missing), old(future))
        decreases |future|
      {
        future := future - {next};
        missing := missing - {next};
        next := WrapAdd32(next, 1);
      }
      nextExpected := Some(next);
    }
  }

  // ----- unwrapped positions

  function Wrap(position: int): u32 {
    position % U32_SPAN
  }

  /** The position at or after `base` that a wrapped number stands for. */
  function Unwrap(number: u32, base: int): int {
    base + (number - base) % U32_SPAN
  }

  lemma UnwrapWrap(position: int, base: int)
    requires base <= position < base + U32_SPAN
    ensures Unwrap(Wrap(position), base) == position
  {
    assert (Wrap(position) - base) % U32_SPAN == (position - base) % U32_SPAN;
  }

  lemma WrapUnwrap(number: u32, base: int)
    ensures Wrap(Unwrap(number, base)) == number
    ensures base <= Unwrap(number, base) < base + U32_SPAN
  {
  }

  lemma WrapNext(position: int)
    ensures WrapAdd32(Wrap(position), 1) == Wrap(position + 1)
  {
  }

  lemma WrapDifference(a: int, b: int)
    ensures WrapSub32(Wrap(a), Wrap(b)) == (a - b) % U32_SPAN
  {
  }

  lemma UnwrapFromNext(number: u32, base: int)
    ensures number != Wrap(base) ==> Unwrap(number, base) == Unwrap(number, base + 1) > base
    ensures number == Wrap(base) ==> Unwrap(number, base) == base
  {
    WrapUnwrap(number, base);
    WrapUnwrap(number, base + 1);
    if number != Wrap(base) {
      UnwrapWrap(Unwrap(number, base), base + 1);
    } else {
      UnwrapWrap(base, base);
    }
  }

  /** What really happened: first and highest position seen, the next one expected, and all seen. */
  datatype History = History(first: int, next: int, high: int, seen: set<int>)

  ghost predicate MissingWithin(missing: set<u32>, next: int, high: int) {
    forall w | w in missing :: next <= Unwrap(w, next) <= high
  }

  ghost predicate FutureWithin(future: set<u32>, next: int, high: int, seen: set<int>) {
    forall w | w in future :: next <= Unwrap(w, next) <= high && Unwrap(w, next) in seen
  }

  /** Every position from `next` to `high` that never arrived is reported missing. */
  ghost predicate Covered(missing: set<u32>, next: int, high: int, seen: set<int>) {
    forall p | next <= p <= high && p !in seen :: Wrap(p) in missing
  }

  ghost predicate AllSeen(from: int, to: int, seen: set<int>) {
    forall p | from <= p < to :: p in seen
  }

  ghost predicate Tracks(t: Tracker, h: History) {
    && t.nextExpected == Some(Wrap(h.next))
    && t.stats.highestSeen == Some(Wrap(h.high))
    && t.stats.missing == |t.missing|
    && h.first < h.next <= h.high + 1 < h.next + HALF_SPAN + 1
    && h.high in h.seen
    && (forall p | p in h.seen :: p <= h.high)
    && AllSeen(h.first, h.next, h.seen)
    && MissingWithin(t.missing, h.next, h.high)
    && FutureWithin(t.future, h.next, h.high, h.seen)
    && Wrap(h.next) !in t.future
  }

  ghost predicate NothingUnderReported(t: Tracker, h: History) {
    Covered(t.missing, h.next, h.high, h.seen)
  }

  /** All live positions lie within half the number space of each other. */
  predicate Live(h: History, p: int) {
    h.high - p < HALF_SPAN && p - h.next < HALF_SPAN && p - h.high < HALF_SPAN
  }

  /** The guard under which a gap is recorded in full: at most 4,096 ahead, or nothing newly skipped. */
  predicate GapTracked(h: History, p: int) {
    p <= h.next + 4_096 || p <= h.high + 1
  }

  ghost function Recorded(t: Tracker, h: History, p: int): History
    requires t.nextExpected.Some?
  {
    var t' := Observed(t, Wrap(p)).0;
    History(h.first, Unwrap(t'.nextExpected.value, h.next), Max(h.high, p), h.seen + {p})
  }

  lemma {:induction false} SkipReceivedKeeps(next: int, high: int, seen: set<int>, missing: set<u32>, future: set<u32>)
    requires next <= high + 1 < next + HALF_SPAN + 1
    requires MissingWithin(missing, next, high) && FutureWithin(future, next, high, seen)
    ensures var c := SkipReceived(Wrap(next), missing, future);
            var next' := Unwrap(c.next, next);
            && next <= next' <= high + 1
            && c.next == Wrap(next')
            && AllSeen(next, next', seen)
            && MissingWithin(c.missing, next', high) && FutureWithin(c.future, next', high, seen)
            && c.next !in c.future
            && (Covered(missing, next, high, seen) ==> Covered(c.missing, next', high, seen))
    decreases |future|
  {
    UnwrapWrap(next, next);
    var w := Wrap(next);
    if w in future {
      WrapNext(next);
      var missing', future' := missing - {w}, future - {w};
      forall x | x in missing' ensures next + 1 <= Unwrap(x, next + 1) <= high {
        UnwrapFromNext(x, next);
      }
      forall x | x in future' ensures next + 1 <= Unwrap(x, next + 1) <= high && Unwrap(x, next + 1) in seen {
        UnwrapFromNext(x, next);
      }
      forall p | next + 1 <= p <= high && p !in seen && Covered(missing, next, high, seen) ensures Wrap(p) in missing' {
        UnwrapWrap(p, next);
      }
      SkipReceivedKeeps(next + 1, high, seen, missing', future');
      var c := SkipReceived(w, missing, future);
      assert c == SkipReceived(Wrap(next + 1), missing', future');
      WrapUnwrap(c.next, next);
      UnwrapWrap(Unwrap(c.next, next + 1), next);
    }
  }

  lemma {:induction false} NumbersAre(from: int, count: nat, w: u32)
    requires count <= 4_096
    ensures w in Numbers(Wrap(from), count) <==> Unwrap(w, from) < from + count
    decreases count
  {
    WrapUnwrap(w, from);
    if count > 0 {
      WrapNext(from);
      UnwrapFromNext(w, from);
      WrapUnwrap(w, from + 1);
      NumbersAre(from + 1, count - 1, w);
    }
  }

  /** The first observation. */
  lemma FirstObservation(p: int)
    ensures var t := Observed(FRESH, Wrap(p)).0;
            var h := History(p, p + 1, p, {p});
            Tracks(t, h) && NothingUnderReported(t, h)
  {
    WrapNext(p);
  }

  /** The expected number arrives: skip everything already received behind it. */
  lemma AdvanceTracks(t: Tracker, h: History)
    requires Tracks(t, h)
    ensures var c := Advance(Wrap(h.next), t.missing, t.future);
            var next' := Unwrap(c.next, h.next);
            var high' := Max(h.high, h.next);
            var seen' := h.seen + {h.next};
            && h.next < next' <= high' + 1
            && c.next == Wrap(next')
            && AllSeen(h.first, next', seen')
            && MissingWithin(c.missing, next', high') && FutureWithin(c.future, next', high', seen')
            && c.next !in c.future
            && (NothingUnderReported(t, h) ==> Covered(c.missing, next', high', seen'))
  {
    var next, high', seen' := h.next, Max(h.high, h.next), h.seen + {h.next};
    var w := Wrap(next);
    var missing' := t.missing - {w};
    WrapNext(next);
    forall x | x in missing' ensures next + 1 <= Unwrap(x, next + 1) <= high' {
      UnwrapFromNext(x, next);
    }
    forall x | x in t.future ensures next + 1 <= Unwrap(x, next + 1) <= high' && Unwrap(x, next + 1) in seen' {
      UnwrapFromNext(x, next);
    }
    forall p | next + 1 <= p <= high' && p !in seen' && NothingUnderReported(t, h) ensures Wrap(p) in missing' {
      UnwrapWrap(p, next);
      UnwrapWrap(next, next);
    }
    SkipReceivedKeeps(next + 1, high', seen', missing', t.future);
    var c := Advance(w, t.missing, t.future);
    WrapUnwrap(c.next, next);
    UnwrapWrap(Unwrap(c.next, next + 1), next);
  }

  /** A number ahead of the expected one: the gap is recorded, the number remembered. */
  lemma GapWithin(t: Tracker, h: History, p: int)
    requires Tracks(t, h) && Live(h, p) && p > h.next
    ensures var missing' := t.missing + Numbers(Wrap(h.next), Min(p - h.next, 4_096));
            var future' := t.future + {Wrap(p)};
            var high', seen' := Max(h.high, p), h.seen + {p};
            && MissingWithin(missing', h.next, high') && FutureWithin(future', h.next, high', seen')
            && Wrap(h.next) !in future'
  {
    var count := Min(p - h.next, 4_096);
    var missing' := t.missing + Numbers(Wrap(h.next), count);
    forall w | w in missing' ensures h.next <= Unwrap(w, h.next) <= Max(h.high, p) {
      NumbersAre(h.next, count, w);
      WrapUnwrap(w, h.next);
    }
    UnwrapWrap(p, h.next);
    UnwrapWrap(h.next, h.next);
  }

  lemma GapCovered(t: Tracker, h: History, p: int)
    requires Tracks(t, h) && Live(h, p) && p > h.next && NothingUnderReported(t, h)
    ensures Covered(t.missing + Numbers(Wrap(h.next), Min(p - h.next, 4_096)), h.next, Max(h.high, p), h.seen + {p})
            <==> GapTracked(h, p)
  {
    hide Wrap, Unwrap, Numbers, FutureWithin, AllSeen;
    var count := Min(p - h.next, 4_096);
    var missing' := t.missing + Numbers(Wrap(h.next), count);
    var high', seen' := Max(h.high, p), h.seen + {p};
    if GapTracked(h, p) {
      forall q | h.next <= q <= high' && q !in seen' ensures Wrap(q) in missing' {
        UnwrapWrap(q, h.next);
        NumbersAre(h.next, count, Wrap(q));
      }
    } else {
      var q := Max(h.next + 4_096, h.high + 1);
      UnwrapWrap(q, h.next);
      NumbersAre(h.next, count, Wrap(q));
      assert Wrap(q) !in t.missing;
      assert h.next <= q <= high' && q !in seen' && Wrap(q) !in missing';
    }
  }

  lemma HighestIsMax(h: History, p: int)
    requires Live(h, p)
    ensures HighestSeen(Some(Wrap(h.high)), Wrap(p)) == Wrap(Max(h.high, p))
  {
    WrapDifference(p, h.high);
  }

  lemma ObserveExpected(t: Tracker, h: History, p: int)
    requires Tracks(t, h) && Live(h, p) && p == h.next
    ensures Tracks(Observed(t, Wrap(p)).0, Recorded(t, h, p))
    ensures NothingUnderReported(t, h) ==> NothingUnderReported(Observed(t, Wrap(p)).0, Recorded(t, h, p))
  {
    var w := Wrap(p);
    HighestIsMax(h, p);
    AdvanceTracks(t, h);
    var c := Advance(w, t.missing, t.future);
    assert t.missing - {w} - {w} == t.missing - {w};
    assert w == t.nextExpected.value && WrapSub32(w, w) == 0;
    var t' := Observed(t, w).0;
    assert Cursor(t'.nextExpected.value, t'.missing, t'.future) == c;
  }

  lemma BehindIsNotMissing(t: Tracker, h: History, p: int)
    requires Tracks(t, h) && Live(h, p) && p < h.next
    ensures Wrap(p) !in t.missing
  {
    hide Wrap, Unwrap, Covered, FutureWithin;
    if Wrap(p) in t.missing {
      UnwrapWrap(p, p);
      WrapUnwrap(Wrap(p), h.next);
      UnwrapWrap(Unwrap(Wrap(p), h.next), p);
    }
  }

  lemma ObserveBehind(t: Tracker, h: History, p: int)
    requires Tracks(t, h) && Live(h, p) && p < h.next
    ensures Tracks(Observed(t, Wrap(p)).0, Recorded(t, h, p))
    ensures NothingUnderReported(t, h) ==> NothingUnderReported(Observed(t, Wrap(p)).0, Recorded(t, h, p))
  {
    HighestIsMax(h, p);
    UnwrapWrap(h.next, h.next);
    BehindIsNotMissing(t, h, p);
    BehindChangesNothing(t, h, p);
    TrackedParts(t, h);
    hide Observed, WrapSub32, Wrap, Unwrap, SkipReceived, Numbers;
    assert Recorded(t, h, p) == History(h.first, h.next, Max(h.high, p), h.seen + {p});
  }

  lemma BehindChangesNothing(t: Tracker, h: History, p: int)
    requires Tracks(t, h) && Live(h, p) && p < h.next && Wrap(p) !in t.missing
    ensures var t' := Observed(t, Wrap(p)).0;
            && t'.nextExpected == t.nextExpected && t'.missing == t.missing && t'.future == t.future
            && t'.stats.missing == |t.missing| && t'.stats.highestSeen == Some(HighestSeen(t.stats.highestSeen, Wrap(p)))
  {
    TrackedParts(t, h);
    Distance(h, p);
    hide Tracks, Live, Wrap, WrapSub32, HighestSeen, Advance, Numbers;
  }

  /** A late number that was reported missing and is not the expected one. */
  lemma ObserveLate(t: Tracker, h: History, p: int)
    requires Tracks(t, h) && Live(h, p) && p > h.next && Wrap(p) in t.missing
    ensures p <= h.high
    ensures Tracks(Observed(t, Wrap(p)).0, Recorded(t, h, p))
    ensures NothingUnderReported(t, h) ==> NothingUnderReported(Observed(t, Wrap(p)).0, Recorded(t, h, p))
  {
    hide Advance, SkipReceived, Numbers;
    var w := Wrap(p);
    HighestIsMax(h, p);
    WrapDifference(p, h.next);
    UnwrapWrap(h.next, h.next);
    UnwrapWrap(p, h.next);
    var t' := Observed(t, w).0;
    assert t'.nextExpected == t.nextExpected && t'.missing == t.missing - {w} && t'.future == t.future;
    forall q | h.next <= q <= h.high && q !in h.seen + {p} && NothingUnderReported(t, h) ensures Wrap(q) in t'.missing {
      UnwrapWrap(q, h.next);
    }
  }

  lemma ObserveAhead(t: Tracker, h: History, p: int)
    requires Tracks(t, h) && Live(h, p) && p > h.next && Wrap(p) !in t.missing
    ensures Tracks(Observed(t, Wrap(p)).0, Recorded(t, h, p))
    ensures NothingUnderReported(t, h) ==>
              (NothingUnderReported(Observed(t, Wrap(p)).0, Recorded(t, h, p)) <==> GapTracked(h, p))
  {
    hide Advance, SkipReceived, Numbers, MissingWithin, FutureWithin, Covered;
    var w, diff := Wrap(p), p - h.next;
    HighestIsMax(h, p);
    WrapDifference(p, h.next);
    UnwrapWrap(h.next, h.next);
    assert WrapSub32(w, t.nextExpected.value) == diff;
    var t' := Observed(t, w).0;
    assert t'.nextExpected == t.nextExpected;
    assert t'.missing == t.missing + Numbers(Wrap(h.next), Min(diff, 4_096)) && t'.future == t.future + {w};
    GapWithin(t, h, p);
    if NothingUnderReported(t, h) {
      GapCovered(t, h, p);
    }
  }

  /**
   One observation keeps the picture true, and loses track of a loss exactly when it skips more
   than 4,096 numbers of which some were never seen skipped before.
   */
  lemma ObserveTracks(t: Tracker, h: History, p: int)
    requires Tracks(t, h) && Live(h, p)
    ensures Tracks(Observed(t, Wrap(p)).0, Recorded(t, h, p))
    ensures NothingUnderReported(t, h) ==>
              (NothingUnderReported(Observed(t, Wrap(p)).0, Recorded(t, h, p)) <==> GapTracked(h, p))
  {
    if p == h.next {
      ObserveExpected(t, h, p);
    } else if p < h.next {
      ObserveBehind(t, h, p);
    } else if Wrap(p) in t.missing {
      ObserveLate(t, h, p);
    } else {
      ObserveAhead(t, h, p);
    }
  }

  // ----- whole runs

  /** The tracker and the true history after observing positions in this order. */
  ghost function Replay(positions: seq<int>): (Tracker, History)
    requires positions != []
    ensures Replay(positions).0.nextExpected.Some?
  {
    var last := positions[|positions| - 1];
    if |positions| == 1 then (Observed(FRESH, Wrap(last)).0, History(last, last + 1, last, {last}))
    else
      var (t, h) := Replay(positions[..|positions| - 1]);
      (Observed(t, Wrap(last)).0, Recorded(t, h, last))
  }

  ghost predicate LiveRun(positions: seq<int>) {
    |positions| > 1 ==>
      && LiveRun(positions[..|positions| - 1])
      && Live(Replay(positions[..|positions| - 1]).1, positions[|positions| - 1])
  }

  ghost predicate TrackedRun(positions: seq<int>) {
    |positions| > 1 ==>
      && TrackedRun(positions[..|positions| - 1])
      && GapTracked(Replay(positions[..|positions| - 1]).1, positions[|positions| - 1])
  }

  /** Positions from the first one seen to the highest one seen that never arrived. */
  ghost function Lost(h: History): set<int> {
    set p | h.first <= p <= h.high && p !in h.seen
  }

  lemma {:induction false} RunTracks(positions: seq<int>)
    requires positions != [] && LiveRun(positions)
    ensures var (t, h) := Replay(positions);
            && Tracks(t, h)
            && (forall p :: p in h.seen <==> p in positions)
            && (TrackedRun(positions) ==> NothingUnderReported(t, h))
    decreases |positions|
  {
    hide Observed, Tracks, NothingUnderReported, Live, GapTracked;
    var last := positions[|positions| - 1];
    if |positions| == 1 {
      FirstObservation(last);
      assert positions == [last];
    } else {
      var before := positions[..|positions| - 1];
      RunTracks(before);
      var t, h := Replay(before).0, Replay(before).1;
      ObserveTracks(t, h, last);
      assert positions == before + [last];
      assert Replay(positions) == (Observed(t, Wrap(last)).0, Recorded(t, h, last));
    }
  }

  /**
   Over any run within half the number space whose gaps are tracked: everything before the expected
   number arrived, everything lost from there on is reported, the trackers hold nothing older, and
   the reported loss count is never below the true one.
   */
  lemma LossNeverUnderReported(positions: seq<int>)
    requires positions != [] && LiveRun(positions) && TrackedRun(positions)
    ensures var (t, h) := Replay(positions);
            && t.nextExpected == Some(Wrap(h.next))
            && (forall p | h.first <= p < h.next :: p in positions)
            && (forall p | h.next <= p <= h.high && p !in positions :: Wrap(p) in t.missing)
            && (forall w | w in t.missing + t.future :: Unwrap(w, h.next) <= h.high < h.next + HALF_SPAN)
            && |Lost(h)| <= t.stats.missing
  {
    RunTracks(positions);
    var t, h := Replay(positions).0, Replay(positions).1;
    LostAreReported(t, h);
    Reading(t, h);
  }

  /** The parts of a true picture, one by one. */
  lemma Reading(t: Tracker, h: History)
    requires Tracks(t, h) && NothingUnderReported(t, h)
    ensures forall p | h.first <= p < h.next :: p in h.seen
    ensures forall p | h.next <= p <= h.high && p !in h.seen :: Wrap(p) in t.missing
    ensures forall w | w in t.missing + t.future :: Unwrap(w, h.next) <= h.high
  {
  }

  lemma LostAreReported(t: Tracker, h: History)
    requires Tracks(t, h) && NothingUnderReported(t, h)
    ensures |Lost(h)| <= |t.missing|
  {
    var wrap := (p: int) => Wrap(p);
    forall p, q | p in Lost(h) && q in Lost(h) && wrap(p) == wrap(q) ensures p == q {
      UnwrapWrap(p, h.next);
      UnwrapWrap(q, h.next);
    }
    InjectionBound(Lost(h), t.missing, wrap);
  }

  /** A single jump of 4,098 hides a loss: the guard of `GapTracked` cannot be dropped. */
  lemma WideGapHidesLoss()
    ensures LiveRun([0, 4098])
    ensures var r := Replay([0, 4098]); exists p :: r.1.next <= p <= r.1.high && p !in r.1.seen && Wrap(p) !in r.0.missing
  {
    var run := [0, 4098];
    var before := run[..1];
    assert before == [0] && run[1] == 4098;
    FirstObservation(0);
    var t, h := Replay(before).0, Replay(before).1;
    ObserveTracks(t, h, 4098);
    assert Replay(run) == (Observed(t, Wrap(4098)).0, Recorded(t, h, 4098));
    assert !NothingUnderReported(Replay(run).0, Replay(run).1);
  }

  // ----- over-reporting

  /** Nothing reported missing ever arrived. */
  ghost predicate NothingOverReported(t: Tracker, h: History) {
    forall w | w in t.missing :: Unwrap(w, h.next) !in h.seen
  }

  /** Position `p` opens a gap over something that arrived ahead of it. */
  ghost predicate GapOverSeen(t: Tracker, h: History, p: int) {
    p > h.next && Wrap(p) !in t.missing && SeenWithin(h.seen, h.next, Min(p, h.next + 4_096))
  }

  ghost predicate SeenWithin(seen: set<int>, from: int, to: int) {
    exists q | q in seen :: from <= q < to
  }

  lemma {:induction false} SkipOnlyRemoves(next: u32, missing: set<u32>, future: set<u32>)
    ensures SkipReceived(next, missing, future).missing <= missing
    decreases |future|
  {
    if next in future {
      SkipOnlyRemoves(WrapAdd32(next, 1), missing - {next}, future - {next});
    }
  }

  lemma ExpectedKeepsExact(t: Tracker, h: History, p: int)
    requires Tracks(t, h) && Live(h, p) && p == h.next && NothingOverReported(t, h)
    ensures NothingOverReported(Observed(t, Wrap(p)).0, Recorded(t, h, p))
  {
    hide SkipReceived, Covered, FutureWithin, Wrap, Unwrap;
    var w := Wrap(p);
    AdvanceTracks(t, h);
    SkipOnlyRemoves(WrapAdd32(w, 1), t.missing - {w}, t.future);
    SameNumber(w);
    assert t.missing - {w} - {w} == t.missing - {w};
    var t', h' := Observed(t, w).0, Recorded(t, h, p);
    forall x | x in t'.missing ensures Unwrap(x, h'.next) !in h'.seen {
      WrapUnwrap(x, h'.next);
      UnwrapWrap(Unwrap(x, h'.next), h.next);
      UnwrapWrap(p, h.next);
    }
  }

  lemma SameNumber(w: u32)
    ensures WrapSub32(w, w) == 0
  {
  }

  lemma BehindKeepsExact(t: Tracker, h: History, p: int)
    requires Tracks(t, h) && Live(h, p) && p < h.next && NothingOverReported(t, h)
    ensures NothingOverReported(Observed(t, Wrap(p)).0, Recorded(t, h, p))
  {
    hide Advance, Numbers, Covered, FutureWithin, HighestSeen;
    WrapDifference(p, h.next);
    UnwrapWrap(h.next, h.next);
    BehindIsNotMissing(t, h, p);
    var t' := Observed(t, Wrap(p)).0;
    assert t'.nextExpected == t.nextExpected && t'.missing == t.missing;
  }

  lemma LateKeepsExact(t: Tracker, h: History, p: int)
    requires Tracks(t, h) && Live(h, p) && p > h.next && Wrap(p) in t.missing && NothingOverReported(t, h)
    ensures NothingOverReported(Observed(t, Wrap(p)).0, Recorded(t, h, p))
  {
    hide Advance, Numbers, Covered, FutureWithin, HighestSeen;
    WrapDifference(p, h.next);
    UnwrapWrap(h.next, h.next);
    UnwrapWrap(p, h.next);
    var t', h' := Observed(t, Wrap(p)).0, Recorded(t, h, p);
    assert t'.nextExpected == t.nextExpected && t'.missing == t.missing - {Wrap(p)};
    forall x | x in t'.missing ensures Unwrap(x, h'.next) !in h'.seen {
      WrapUnwrap(x, h.next);
    }
  }

  /** The numbers a gap records are those from the expected one on, up to 4,096 of them. */
  lemma GapExact(t: Tracker, h: History, p: int)
    requires Tracks(t, h) && Live(h, p) && p > h.next && NothingOverReported(t, h) && Wrap(p) !in t.missing
    ensures var missing' := t.missing + Numbers(Wrap(h.next), Min(p - h.next, 4_096));
            (forall x | x in missing' :: Unwrap(x, h.next) !in h.seen + {p}) <==> !GapOverSeen(t, h, p)
  {
    hide Numbers, Covered, FutureWithin, Wrap, Unwrap;
    var next, count := h.next, Min(p - h.next, 4_096);
    var missing' := t.missing + Numbers(Wrap(next), count);
    if SeenWithin(h.seen, next, Min(p, next + 4_096)) {
      var q :| q in h.seen && next <= q < Min(p, next + 4_096);
      UnwrapWrap(q, next);
      NumbersAre(next, count, Wrap(q));
      assert Wrap(q) in missing';
    } else {
      forall x | x in missing' ensures Unwrap(x, next) !in h.seen + {p} {
        WrapUnwrap(x, next);
        NumbersAre(next, count, x);
      }
    }
  }

  lemma AheadExact(t: Tracker, h: History, p: int)
    requires Tracks(t, h) && Live(h, p) && p > h.next && Wrap(p) !in t.missing && NothingOverReported(t, h)
    ensures NothingOverReported(Observed(t, Wrap(p)).0, Recorded(t, h, p)) <==> !GapOverSeen(t, h, p)
  {
    hide Advance, Numbers, Covered, FutureWithin, HighestSeen, GapOverSeen;
    var diff := p - h.next;
    WrapDifference(p, h.next);
    UnwrapWrap(h.next, h.next);
    assert WrapSub32(Wrap(p), t.nextExpected.value) == diff;
    var t' := Observed(t, Wrap(p)).0;
    assert t'.nextExpected == t.nextExpected;
    assert t'.missing == t.missing + Numbers(Wrap(h.next), Min(diff, 4_096));
    GapExact(t, h, p);
  }

  /**
   Exactly when an observation makes `missing` name something that arrived: when it opens a gap over a
   number that came ahead of it.
   */
  lemma ObserveOverReports(t: Tracker, h: History, p: int)
    requires Tracks(t, h) && Live(h, p) && NothingOverReported(t, h)
    ensures NothingOverReported(Observed(t, Wrap(p)).0, Recorded(t, h, p)) <==> !GapOverSeen(t, h, p)
  {
    hide Observed, Tracks, Recorded, Live, NothingOverReported;
    if p == h.next {
      ExpectedKeepsExact(t, h, p);
    } else if p < h.next {
      BehindKeepsExact(t, h, p);
    } else if Wrap(p) in t.missing {
      LateKeepsExact(t, h, p);
    } else {
      AheadExact(t, h, p);
    }
  }

  /** No observation of the run opens a gap over something that had arrived. */
  ghost predicate CleanRun(positions: seq<int>) {
    |positions| > 1 ==>
      && CleanRun(positions[..|positions| - 1])
      && var (t, h) := Replay(positions[..|positions| - 1]);
         !GapOverSeen(t, h, positions[|positions| - 1])
  }

  lemma {:induction false} RunExact(positions: seq<int>)
    requires positions != [] && LiveRun(positions) && CleanRun(positions)
    ensures NothingOverReported(Replay(positions).0, Replay(positions).1)
    decreases |positions|
  {
    hide Observed, Tracks, NothingOverReported, Live, GapOverSeen;
    var last := positions[|positions| - 1];
    if |positions| == 1 {
      NothingMissingYet(last);
    } else {
      var before := positions[..|positions| - 1];
      RunTracks(before);
      RunExact(before);
      var t, h := Replay(before).0, Replay(before).1;
      ObserveOverReports(t, h, last);
      assert Replay(positions) == (Observed(t, Wrap(last)).0, Recorded(t, h, last));
    }
  }

  lemma NothingMissingYet(p: int)
    ensures NothingOverReported(Observed(FRESH, Wrap(p)).0, History(p, p + 1, p, {p}))
  {
  }

  /**
   Without a gap over something that had arrived and with every gap tracked, the report is exact: the
   numbers in `missing` are those that never arrived, and the count is the true loss.
   */
  lemma LossExactlyReported(positions: seq<int>)
    requires positions != [] && LiveRun(positions) && TrackedRun(positions) && CleanRun(positions)
    ensures var (t, h) := Replay(positions);
            && (forall p | h.next <= p <= h.high :: Wrap(p) in t.missing <==> p !in positions)
            && t.stats.missing == |Lost(h)|
  {
    hide Wrap, Unwrap, CleanRun, TrackedRun, LiveRun, Replay;
    RunTracks(positions);
    RunExact(positions);
    var t, h := Replay(positions).0, Replay(positions).1;
    forall p | h.next <= p <= h.high ensures Wrap(p) in t.missing <==> p !in positions {
      UnwrapWrap(p, h.next);
    }
    LostAreReported(t, h);
    ReportedAreLost(t, h);
  }

  lemma ReportedAreLost(t: Tracker, h: History)
    requires Tracks(t, h) && NothingOverReported(t, h)
    ensures |t.missing| <= |Lost(h)|
  {
    hide Wrap, Unwrap, Covered, FutureWithin;
    var unwrap := (w: u32) => Unwrap(w, h.next);
    forall v, w | v in t.missing && w in t.missing && unwrap(v) == unwrap(w) ensures v == w {
      WrapUnwrap(v, h.next);
      WrapUnwrap(w, h.next);
    }
    InjectionBound(t.missing, Lost(h), unwrap);
  }

  /** Observing 10, 12, 13 reports 12 as missing: the guard of `CleanRun` cannot be dropped. */
  lemma ReorderingOverReports()
    ensures LiveRun([10, 12, 13]) && TrackedRun([10, 12, 13])
    ensures var (t, h) := Replay([10, 12, 13]); 12 in h.seen && h.next == 11 && Wrap(12) in t.missing
  {
    var run := [10, 12, 13];
    assert run[..2] == [10, 12] && [10, 12][..1] == [10];
    FirstObservation(10);
    var t0, h0 := Replay([10]).0, Replay([10]).1;
    assert LiveRun([10]) && TrackedRun([10]);
    ObserveTracks(t0, h0, 12);
    var t1, h1 := Replay([10, 12]).0, Replay([10, 12]).1;
    assert (t1, h1) == (Observed(t0, Wrap(12)).0, Recorded(t0, h0, 12));
    StillExpected(t0, h0, 12);
    assert Live(h0, 12) && GapTracked(h0, 12);
    assert LiveRun([10, 12]) && TrackedRun([10, 12]);
    ObserveTracks(t1, h1, 13);
    StillExpected(t1, h1, 13);
    assert Live(h1, 13) && GapTracked(h1, 13);
    NumbersAre(11, 2, Wrap(12));
    assert Replay(run) == (Observed(t1, Wrap(13)).0, Recorded(t1, h1, 13));
  }

  /** A number ahead of the expected one leaves the expectation and records the gap. */
  lemma StillExpected(t: Tracker, h: History, p: int)
    requires Tracks(t, h) && Live(h, p) && p > h.next && Wrap(p) !in t.missing
    ensures Recorded(t, h, p) == History(h.first, h.next, Max(h.high, p), h.seen + {p})
    ensures Observed(t, Wrap(p)).0.missing == t.missing + Numbers(Wrap(h.next), Min(p - h.next, 4_096))
  {
    hide Advance, Numbers, Covered, FutureWithin, HighestSeen;
    WrapDifference(p, h.next);
    UnwrapWrap(h.next, h.next);
    assert WrapSub32(Wrap(p), t.nextExpected.value) == p - h.next;
  }

  // ----- what one observation says

  /**
   What the tracker reports of position `p`: what it expected, how many numbers were skipped, and one more
   packet counted. A number beyond all others is regular; one before the expected one is not; nor is one
   that was lost so far, if losses are fully reported.
   */
  lemma ObservationIs(t: Tracker, h: History, p: int)
    requires Tracks(t, h) && Live(h, p)
    ensures var (t', seen) := Observed(t, Wrap(p));
            && seen.sequence == Wrap(p) && seen.expected == Wrap(h.next)
            && seen.missingBefore == (if p >= h.next then p - h.next else 0)
            && t'.stats.received == (if t.stats.received == U64_MAX then U64_MAX else t.stats.received + 1)
            && t'.stats.duplicateOrReordered
               == (if seen.duplicateOrReordered && t.stats.duplicateOrReordered < U64_MAX then t.stats.duplicateOrReordered + 1
                   else t.stats.duplicateOrReordered)
            && t'.stats.highestSeen == Some(Wrap(if p > h.high then p else h.high))
            && (p > h.high ==> !seen.duplicateOrReordered)
            && (p < h.next ==> seen.duplicateOrReordered)
            && (p <= h.high && p !in h.seen && NothingUnderReported(t, h) ==> seen.duplicateOrReordered)
  {
    hide Observed, Tracks, Live, NothingUnderReported, Wrap, HighestSeen, WrapSub32;
    TrackedParts(t, h);
    ObservedParts(t, Wrap(p), Wrap(h.next));
    Distance(h, p);
    if p > h.high {
      NotAhead(t, h, p);
    } else if h.next <= p && p !in h.seen && NothingUnderReported(t, h) {
      LostIsMissing(t, h, p);
    }
  }

  lemma TrackedParts(t: Tracker, h: History)
    requires Tracks(t, h)
    ensures t.nextExpected == Some(Wrap(h.next)) && t.stats.highestSeen == Some(Wrap(h.high)) && h.next <= h.high + 1
  {
  }

  lemma ObservedParts(t: Tracker, w: u32, expected: u32)
    requires t.nextExpected == Some(expected)
    ensures var (t', seen) := Observed(t, w);
            var diff := WrapSub32(w, expected);
            && seen.sequence == w && seen.expected == expected && seen.missingBefore == (if diff <= I32_MAX then diff else 0)
            && (seen.duplicateOrReordered <==> diff > I32_MAX || w in t.missing || (diff != 0 && w in t.future))
            && t'.stats.received == SatAdd(t.stats.received, 1)
            && t'.stats.duplicateOrReordered
               == (if seen.duplicateOrReordered then SatAdd(t.stats.duplicateOrReordered, 1) else t.stats.duplicateOrReordered)
            && t'.stats.highestSeen == Some(HighestSeen(t.stats.highestSeen, w))
  {
    hide Advance, Numbers, HighestSeen;
  }

  lemma Distance(h: History, p: int)
    requires Live(h, p) && h.next <= h.high + 1
    ensures var diff := WrapSub32(Wrap(p), Wrap(h.next));
            if p >= h.next then diff == p - h.next <= I32_MAX else diff > I32_MAX
    ensures HighestSeen(Some(Wrap(h.high)), Wrap(p)) == Wrap(if p > h.high then p else h.high)
  {
    WrapDifference(p, h.next);
    WrapDifference(p, h.high);
  }

  lemma NotAhead(t: Tracker, h: History, p: int)
    requires Tracks(t, h) && Live(h, p) && p > h.high
    ensures Wrap(p) !in t.missing && Wrap(p) !in t.future
  {
    UnwrapWrap(p, h.next);
  }

  lemma LostIsMissing(t: Tracker, h: History, p: int)
    requires NothingUnderReported(t, h) && h.next <= p <= h.high && p !in h.seen
    ensures Wrap(p) in t.missing
  {
  }

  /** The first number seen is what is expected, and starts the count. */
  lemma FirstObservationIs(sequence: u32)
    ensures var (t, seen) := Observed(FRESH, sequence);
            && seen == Observation(sequence, sequence, 0, false)
            && t.nextExpected == Some((sequence + 1) % 0x1_0000_0000) && t.missing == {}
            && t.stats == Stats(1, 0, 0, Some(sequence))
  {
  }
}
