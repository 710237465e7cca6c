/**
 The symbol size of an audio epoch. The search looks at a candidate set of fragment sizes only; its
 result is optimal over every fragment size the datagram budget admits.
 */
module Geometry {
  import opened Arithmetic
  import opened AudioTypes
  import opened MachineInts
  import opened Wrappers
  import Datagram
  import RaptorQ

  const SHARD_HEADER_LEN := 72

  /** Bytes of a datagram besides its symbol: header, packet id, and the trailer repairs carry. */
  const DATAGRAM_FRAMING := Datagram.HEADER_LEN + RaptorQ.PACKET_HEADER_LEN + Datagram.SESSION_ID_LEN

  datatype Config = Config(maxDatagramSize: u64, transportOverhead: u64, repairSymbols: u32, maxSourceSymbols: u16) {

    function FramingSize(): Result<nat, AudioError> {
      if transportOverhead + DATAGRAM_FRAMING > U64_MAX then Failure(DatagramBudgetTooSmall(maxDatagramSize, U64_MAX))
      else Success(transportOverhead + DATAGRAM_FRAMING)
    }

    function SymbolSize(): (r: Result<u16, AudioError>)
      ensures r.Success? <==> transportOverhead + 117 <= maxDatagramSize <= transportOverhead + 44 + U16_MAX
      ensures r.Success? ==> transportOverhead + 44 + r.value == maxDatagramSize && SHARD_HEADER_LEN < r.value
    {
      var framing :- FramingSize();
      var required := framing + SHARD_HEADER_LEN + 1;
      if maxDatagramSize < required then Failure(DatagramBudgetTooSmall(maxDatagramSize, required))
      else if maxDatagramSize - framing > U16_MAX then Failure(SymbolSizeTooLarge(maxDatagramSize - framing))
      else Success(maxDatagramSize - framing)
    }

    function MaxFragmentPayload(): Result<nat, AudioError> {
      var size :- SymbolSize();
      Success(size - SHARD_HEADER_LEN)
    }
  }

  datatype SymbolGeometry = SymbolGeometry(symbolSize: u16, fragmentPayload: nat, sourceSymbols: u16, sourceWireBytes: nat)

  /** Every group occupies at least one byte of payload space. */
  function PayloadSizes(groups: seq<Group>): (sizes: seq<nat>)
    ensures |sizes| == |groups|
    ensures forall i | 0 <= i < |groups| :: sizes[i] == Max(|groups[i].payload|, 1)
  {
    seq(|groups|, i requires 0 <= i < |groups| => Max(|groups[i].payload|, 1))
  }

  ghost predicate Positive(sizes: seq<nat>) {
    forall i | 0 <= i < |sizes| :: sizes[i] > 0
  }

  /** Source symbols of an epoch cut into fragments of `f` bytes. */
  function SymbolCount(sizes: seq<nat>, f: nat): nat
    requires f > 0
  {
    if sizes == [] then 0 else CeilDiv(sizes[0], f) + SymbolCount(sizes[1..], f)
  }

  /** The same with the source's overflow check. */
  function CheckedCount(total: nat, sizes: seq<nat>, f: nat): Option<nat>
    requires f > 0
    decreases |sizes|
  {
    if sizes == [] then Some(total)
    else if total + CeilDiv(sizes[0], f) > U64_MAX then None
    else CheckedCount(total + CeilDiv(sizes[0], f), sizes[1..], f)
  }

  lemma {:induction false} CheckedCountIs(total: nat, sizes: seq<nat>, f: nat)
    requires f > 0 && total <= U64_MAX
    ensures CheckedCount(total, sizes, f)
            == if total + SymbolCount(sizes, f) <= U64_MAX then Some(total + SymbolCount(sizes, f)) else None
    decreases |sizes|
  {
    if sizes != [] && total + CeilDiv(sizes[0], f) <= U64_MAX {
      CheckedCountIs(total + CeilDiv(sizes[0], f), sizes[1..], f);
    }
  }

  /** Wire bytes, then symbol count, then fragment size. */
  datatype Score = Score(wireBytes: nat, symbols: nat, fragment: nat)

  function ScoreOf(framing: nat, sizes: seq<nat>, f: nat): Score
    requires f > 0
  {
    var symbols := SymbolCount(sizes, f);
    Score(SatMul(symbols, framing + SHARD_HEADER_LEN + f), symbols, f)
  }

  predicate AtMost(a: Score, b: Score) {
    a.wireBytes < b.wireBytes
    || (a.wireBytes == b.wireBytes && (a.symbols < b.symbols || (a.symbols == b.symbols && a.fragment <= b.fragment)))
  }

  predicate Admitted(config: Config, sizes: seq<nat>, max: nat, f: nat) {
    0 < f <= max && SymbolCount(sizes, f) <= config.maxSourceSymbols
  }

  /** `f` meets the symbol limit and no admissible fragment size scores below it. */
  ghost predicate Optimal(config: Config, sizes: seq<nat>, framing: nat, max: nat, f: nat) {
    && Admitted(config, sizes, max, f)
    && forall g | Admitted(config, sizes, max, g) :: AtMost(ScoreOf(framing, sizes, f), ScoreOf(framing, sizes, g))
  }

  // ----- what optimal means on the wire

  /**
   Bytes on the wire of all source datagrams of an epoch: each has the transport's own bytes, the 32 of
   the datagram header, the 4 of the packet id, the 8 a trailer may take, the 72 of the shard header and
   the fragment.
   */
  function WireCost(config: Config, sizes: seq<nat>, f: nat): nat
    requires f > 0
  {
    SymbolCount(sizes, f) * (config.transportOverhead + 32 + 4 + 8 + 72 + f)
  }

  /** The fragment sizes an epoch may be cut at: within the budget and the symbol limit. */
  ghost predicate Cuts(config: Config, sizes: seq<nat>, f: nat) {
    && 0 < f && config.transportOverhead + 116 + f <= config.maxDatagramSize
    && SymbolCount(sizes, f) <= config.maxSourceSymbols
  }

  /** Cutting at `f` costs fewer bytes than cutting at `g`, or as many and fewer symbols, or both and `f` is smaller. */
  ghost predicate NoDearer(config: Config, sizes: seq<nat>, f: nat, g: nat)
    requires f > 0 && g > 0
  {
    var (a, b) := (Min(WireCost(config, sizes, f), U64_MAX), Min(WireCost(config, sizes, g), U64_MAX));
    a < b || (a == b && (SymbolCount(sizes, f) < SymbolCount(sizes, g)
                         || (SymbolCount(sizes, f) == SymbolCount(sizes, g) && f <= g)))
  }

  /** The geometry is the cheapest there is, and says what it costs. */
  ghost predicate Cheapest(config: Config, sizes: seq<nat>, g: SymbolGeometry) {
    var f := g.fragmentPayload;
    && Cuts(config, sizes, f)
    && g.symbolSize == 72 + f && g.sourceSymbols == SymbolCount(sizes, f)
    && g.sourceWireBytes == Min(WireCost(config, sizes, f), U64_MAX)
    && (forall h | Cuts(config, sizes, h) :: NoDearer(config, sizes, f, h))
  }

  lemma ScoresAreCosts(config: Config, sizes: seq<nat>, f: nat, g: nat)
    requires f > 0 && g > 0 && config.FramingSize().Success?
    ensures var framing := config.FramingSize().value;
            && ScoreOf(framing, sizes, f).wireBytes == Min(WireCost(config, sizes, f), U64_MAX)
            && (AtMost(ScoreOf(framing, sizes, f), ScoreOf(framing, sizes, g)) <==> NoDearer(config, sizes, f, g))
  {
    hide SymbolCount;
    SameCost(config, sizes, f);
    SameCost(config, sizes, g);
  }

  lemma SameCost(config: Config, sizes: seq<nat>, f: nat)
    requires f > 0 && config.FramingSize().Success?
    ensures SatMul(SymbolCount(sizes, f), config.FramingSize().value + SHARD_HEADER_LEN + f)
            == Min(WireCost(config, sizes, f), U64_MAX)
  {
    hide SymbolCount;
    assert config.FramingSize().value + SHARD_HEADER_LEN + f == config.transportOverhead + 32 + 4 + 8 + 72 + f;
  }

  lemma OptimalIsCheapest(config: Config, sizes: seq<nat>, f: nat)
    requires config.MaxFragmentPayload().Success?
    requires Optimal(config, sizes, config.FramingSize().value, config.MaxFragmentPayload().value, f)
    ensures Cheapest(config, sizes, GeometryAt(config.FramingSize().value, sizes, f))
  {
    hide SymbolCount, NoDearer, AtMost, WireCost, ScoreOf;
    var framing, max := config.FramingSize().value, config.MaxFragmentPayload().value;
    forall h | Cuts(config, sizes, h) ensures NoDearer(config, sizes, f, h) {
      assert Admitted(config, sizes, max, h);
      ScoresAreCosts(config, sizes, f, h);
    }
    ScoresAreCosts(config, sizes, f, f);
    GeometryFields(framing, sizes, f);
  }

  lemma GeometryFields(framing: nat, sizes: seq<nat>, f: nat)
    requires 0 < f <= U16_MAX - SHARD_HEADER_LEN && SymbolCount(sizes, f) <= U16_MAX
    ensures var g := GeometryAt(framing, sizes, f);
            && g.fragmentPayload == f && g.symbolSize == 72 + f && g.sourceSymbols == SymbolCount(sizes, f)
            && g.sourceWireBytes == ScoreOf(framing, sizes, f).wireBytes
  {
  }

  /**
   Where the product stays within 64 bits it is the true cost, and no admissible fragment size costs
   less; where it does not, no admissible one stays within them either, except at their very limit.
   */
  lemma CheapestCost(config: Config, sizes: seq<nat>, g: SymbolGeometry, h: nat)
    requires Cheapest(config, sizes, g) && Cuts(config, sizes, h)
    ensures g.sourceWireBytes < U64_MAX ==>
              g.sourceWireBytes == WireCost(config, sizes, g.fragmentPayload) <= WireCost(config, sizes, h)
    ensures g.sourceWireBytes == U64_MAX ==> U64_MAX <= WireCost(config, sizes, h)
  {
    hide SymbolCount, WireCost;
    assert NoDearer(config, sizes, g.fragmentPayload, h);
  }

  // ----- the candidate set suffices

  lemma {:induction false} CountIsMonotone(sizes: seq<nat>, f: nat, g: nat)
    requires 0 < f <= g
    ensures SymbolCount(sizes, g) <= SymbolCount(sizes, f)
  {
    if sizes != [] {
      CeilDivAntitone(sizes[0], f, g);
      CountIsMonotone(sizes[1..], f, g);
    }
  }

  lemma {:induction false} PartOfCount(sizes: seq<nat>, f: nat, i: nat)
    requires f > 0 && i < |sizes|
    ensures CeilDiv(sizes[i], f) <= SymbolCount(sizes, f)
  {
    if i > 0 {
      PartOfCount(sizes[1..], f, i - 1);
    }
  }

  lemma {:induction false} SameParts(sizes: seq<nat>, f: nat, g: nat)
    requires f > 0 && g > 0
    requires forall i | 0 <= i < |sizes| :: CeilDiv(sizes[i], f) == CeilDiv(sizes[i], g)
    ensures SymbolCount(sizes, f) == SymbolCount(sizes, g)
  {
    if sizes != [] {
      SameParts(sizes[1..], f, g);
    }
  }

  /** The smallest fragment size that still cuts `size` into as many pieces as `f` does. */
  function Tightened(size: nat, f: nat): nat
    requires size > 0 && f > 0
  {
    CeilDivCovers(size, f);
    CeilDiv(size, CeilDiv(size, f))
  }

  /** Any size from the tightened one up to `f` cuts into the same number of pieces. */
  lemma TightenedKeepsPieces(size: nat, f: nat, g: nat)
    requires size > 0 && f > 0 && Tightened(size, f) <= g <= f
    ensures g > 0 && CeilDiv(size, g) == CeilDiv(size, f)
    ensures 0 < Tightened(size, f) <= f
  {
    var pieces := CeilDiv(size, f);
    CeilDivCovers(size, f);
    CeilDivCovers(size, pieces);
    CeilDivAtMost(size, pieces, f) by {
      assert size <= pieces * f == f * pieces;
    }
    CeilDivAntitone(size, g, f);
    assert Tightened(size, f) * pieces == pieces * Tightened(size, f);
    MulAtMost(Tightened(size, f), g, pieces);
    assert g * pieces == pieces * g;
    CeilDivAtMost(size, g, pieces);
  }

  lemma TightenedWithin(size: nat, f: nat)
    requires size > 0 && f > 0
    ensures 0 < Tightened(size, f) <= f
  {
    var pieces := CeilDiv(size, f);
    CeilDivCovers(size, f);
    CeilDivCovers(size, pieces);
    assert pieces * f == f * pieces;
    CeilDivAtMost(size, pieces, f);
  }

  /** The group whose tightened size is largest. */
  lemma {:induction false} LargestTightened(sizes: seq<nat>, f: nat) returns (at: nat)
    requires sizes != [] && Positive(sizes) && f > 0
    ensures at < |sizes|
    ensures forall i | 0 <= i < |sizes| :: Tightened(sizes[i], f) <= Tightened(sizes[at], f)
  {
    if |sizes| == 1 {
      at := 0;
    } else {
      var rest := LargestTightened(sizes[1..], f);
      assert forall i | 1 <= i < |sizes| :: sizes[i] == sizes[1..][i - 1];
      at := if Tightened(sizes[0], f) <= Tightened(sizes[rest + 1], f) then rest + 1 else 0;
    }
  }

  /** What the candidate loops collect. */
  ghost predicate IsCandidate(config: Config, sizes: seq<nat>, max: nat, f: nat)
    requires max > 0
  {
    f == max || exists i, n :: CandidateOf(config, sizes, max, i, n, f)
  }

  ghost predicate CandidateOf(config: Config, sizes: seq<nat>, max: nat, i: int, n: int, f: nat)
    requires max > 0
  {
    && 0 <= i < |sizes|
    && CeilDiv(sizes[i], max) <= n <= config.maxSourceSymbols
    && n > 0
    && f == CeilDiv(sizes[i], n) <= max
  }

  /** For any admissible fragment size some candidate needs the same symbols and is no larger. */
  lemma CandidateBelow(config: Config, sizes: seq<nat>, max: nat, f: nat) returns (candidate: nat)
    requires sizes != [] && Positive(sizes) && max > 0 && Admitted(config, sizes, max, f)
    ensures 0 < candidate <= f && IsCandidate(config, sizes, max, candidate)
    ensures SymbolCount(sizes, candidate) == SymbolCount(sizes, f)
  {
    var at := LargestTightened(sizes, f);
    candidate := Tightened(sizes[at], f);
    TightenedWithin(sizes[at], f);
    forall i | 0 <= i < |sizes| ensures CeilDiv(sizes[i], candidate) == CeilDiv(sizes[i], f) {
      TightenedKeepsPieces(sizes[i], f, candidate);
    }
    SameParts(sizes, candidate, f);
    var n := CeilDiv(sizes[at], f);
    CeilDivCovers(sizes[at], f);
    CeilDivAntitone(sizes[at], f, max);
    PartOfCount(sizes, f, at);
    assert CandidateOf(config, sizes, max, at, n, candidate);
  }

  lemma SatMulMonotone(n: nat, a: nat, b: nat)
    requires a <= b
    ensures SatMul(n, a) <= SatMul(n, b)
  {
    assert n * a <= n * b;
  }

  lemma AtMostTransitive(a: Score, b: Score, c: Score)
    requires AtMost(a, b) && AtMost(b, c)
    ensures AtMost(a, c)
  {
  }

  /** The best of the admitted candidates is the best of all. */
  lemma CandidatesSuffice(config: Config, sizes: seq<nat>, framing: nat, max: nat, best: nat)
    requires sizes != [] && Positive(sizes) && max > 0 && Admitted(config, sizes, max, best)
    requires forall c | Admitted(config, sizes, max, c) && IsCandidate(config, sizes, max, c) ::
               AtMost(ScoreOf(framing, sizes, best), ScoreOf(framing, sizes, c))
    ensures Optimal(config, sizes, framing, max, best)
  {
    forall f | Admitted(config, sizes, max, f)
      ensures AtMost(ScoreOf(framing, sizes, best), ScoreOf(framing, sizes, f))
    {
      var c := CandidateBelow(config, sizes, max, f);
      SatMulMonotone(SymbolCount(sizes, f), framing + SHARD_HEADER_LEN + c, framing + SHARD_HEADER_LEN + f);
      assert AtMost(ScoreOf(framing, sizes, c), ScoreOf(framing, sizes, f));
      AtMostTransitive(ScoreOf(framing, sizes, best), ScoreOf(framing, sizes, c), ScoreOf(framing, sizes, f));
    }
  }

  /** Why no symbol size fits the budget. */
  lemma BudgetRefused(config: Config)
    ensures var (max, overhead) := (config.maxDatagramSize as nat, config.transportOverhead as nat);
            var r := config.MaxFragmentPayload();
            if overhead + 44 > 0xFFFF_FFFF_FFFF_FFFF then r == Failure(DatagramBudgetTooSmall(max, 0xFFFF_FFFF_FFFF_FFFF))
            else if max < overhead + 117 then r == Failure(DatagramBudgetTooSmall(max, overhead + 117))
            else if max - overhead - 44 > 65_535 then r == Failure(SymbolSizeTooLarge(max - overhead - 44))
            else r == Success(max - overhead - 116)
  {
  }

  // ----- the search

  method CollectCandidates(config: Config, groups: seq<Group>, max: nat) returns (candidates: set<nat>)
    requires max > 0
    ensures forall f :: f in candidates <==> IsCandidate(config, PayloadSizes(groups), max, f)
  {
    ghost var sizes := PayloadSizes(groups);
    candidates := {max};
    for g := 0 to |groups|
      invariant forall f :: f in candidates <==>
                  f == max || exists i, n :: i < g && CandidateOf(config, sizes, max, i, n, f)
    {
      var size := Max(|groups[g].payload|, 1);
      var first := CeilDiv(size, max);
      CeilDivCovers(size, max);
      var n := first;
      ghost var before := candidates;
      while n <= config.maxSourceSymbols
        invariant first <= n
        invariant forall f :: f in candidates <==>
                    f in before || exists m :: m < n && CandidateOf(config, sizes, max, g, m, f)
        decreases config.maxSourceSymbols - n
      {
        var candidate := CeilDiv(size, n);
        CeilDivCovers(size, n);
        if candidate <= max {
          assert CandidateOf(config, sizes, max, g, n, candidate);
          candidates := candidates + {Max(candidate, 1)};
        }
        n := n + 1;
      }
    }
  }

  /** `geometry_for_groups` */
  method GeometryForGroups(config: Config, groups: seq<Group>) returns (r: Result<SymbolGeometry, AudioError>)
    ensures groups == [] ==> r == Failure(EmptyEpoch)
    ensures groups != [] && config.MaxFragmentPayload().Failure? ==>
              r == Failure(config.MaxFragmentPayload().error)
    ensures groups != [] && config.MaxFragmentPayload().Success? ==>
              var framing, max, sizes := config.FramingSize().value, config.MaxFragmentPayload().value, PayloadSizes(groups);
              if SymbolCount(sizes, max) > config.maxSourceSymbols then
                r == Failure(TooManySourceSymbols(SymbolCount(sizes, max), config.maxSourceSymbols))
              else
                && r.Success?
                && Optimal(config, sizes, framing, max, r.value.fragmentPayload)
                && r.value == GeometryAt(framing, sizes, r.value.fragmentPayload)
                && Cheapest(config, sizes, r.value)
  {
    hide WireCost, Cheapest;
    if groups == [] {
      return Failure(EmptyEpoch);
    }
    var framing := config.FramingSize();
    if framing.Failure? {
      assert config.SymbolSize() == Failure(framing.error);
      return Failure(framing.error);
    }
    var limit := config.MaxFragmentPayload();
    if limit.Failure? {
      return Failure(limit.error);
    }
    var max, sizes := limit.value, PayloadSizes(groups);
    var candidates := CollectCandidates(config, groups, max);

    var best: Option<Score> := None;
    var pending := candidates;
    while pending != {}
      invariant pending <= candidates
      invariant best.Some? ==>
                  && Admitted(config, sizes, max, best.value.fragment)
                  && best.value == ScoreOf(framing.value, sizes, best.value.fragment)
      invariant forall f | f in candidates - pending && Admitted(config, sizes, max, f) ::
                  best.Some? && AtMost(best.value, ScoreOf(framing.value, sizes, f))
      decreases pending
    {
      var f :| f in pending;
      CandidatePositive(config, sizes, max, f);
      CheckedCountIs(0, sizes, f);
      PositiveCount(sizes, f);
      var symbols := CheckedCount(0, sizes, f);
      if symbols.Some? && symbols.value != 0 && symbols.value <= config.maxSourceSymbols && symbols.value <= U16_MAX {
        var score := Score(SatMul(symbols.value, framing.value + SHARD_HEADER_LEN + f), symbols.value, f);
        if best.None? || !AtMost(best.value, score) {
          best := Some(score);
        }
      }
      pending := pending - {f};
    }

    if best.None? {
      assert max in candidates - pending && !Admitted(config, sizes, max, max);
      return Failure(TooManySourceSymbols(SymbolCount(sizes, max), config.maxSourceSymbols));
    }
    var fragment := best.value.fragment;
    CountIsMonotone(sizes, fragment, max);
    CandidatesSuffice(config, sizes, framing.value, max, fragment);
    OptimalIsCheapest(config, sizes, fragment);
    r := Success(SymbolGeometry(SHARD_HEADER_LEN + fragment, fragment, best.value.symbols, best.value.wireBytes));
  }

  function GeometryAt(framing: nat, sizes: seq<nat>, f: nat): SymbolGeometry
    requires 0 < f <= U16_MAX - SHARD_HEADER_LEN && SymbolCount(sizes, f) <= U16_MAX
  {
    var score := ScoreOf(framing, sizes, f);
    SymbolGeometry(SHARD_HEADER_LEN + f, f, score.symbols, score.wireBytes)
  }

  lemma CandidatePositive(config: Config, sizes: seq<nat>, max: nat, f: nat)
    requires Positive(sizes) && max > 0 && IsCandidate(config, sizes, max, f)
    ensures 0 < f <= max
  {
    if f != max {
      var i, n :| CandidateOf(config, sizes, max, i, n, f);
      CeilDivCovers(sizes[i], n);
    }
  }

  lemma PositiveCount(sizes: seq<nat>, f: nat)
    requires sizes != [] && Positive(sizes) && f > 0
    ensures SymbolCount(sizes, f) > 0
  {
    CeilDivCovers(sizes[0], f);
  }

  /** Two optimal fragment sizes are the same: the result does not depend on the search order. */
  lemma OptimalIsUnique(config: Config, sizes: seq<nat>, framing: nat, max: nat, f: nat, g: nat)
    requires Optimal(config, sizes, framing, max, f) && Optimal(config, sizes, framing, max, g)
    ensures f == g
  {
    assert AtMost(ScoreOf(framing, sizes, f), ScoreOf(framing, sizes, g));
    assert AtMost(ScoreOf(framing, sizes, g), ScoreOf(framing, sizes, f));
  }

  /** Some fragment size is admitted exactly when the largest one is. */
  lemma AdmittedAtAll(config: Config, sizes: seq<nat>, max: nat, f: nat)
    requires Admitted(config, sizes, max, f)
    ensures Admitted(config, sizes, max, max)
  {
    CountIsMonotone(sizes, f, max);
  }
}
