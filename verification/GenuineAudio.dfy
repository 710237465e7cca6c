/** The audio decoder fed with datagrams of encoded epochs, in any order, with loss and duplication. */
module GenuineAudio {
  import opened AudioDecoderRuns
  import opened AudioDecoding
  import opened ByteCodec
  import opened ClosedWindows
  import opened Collections
  import opened Datagram
  import opened EpochEncoding
  import opened EpochSharding
  import opened FecDecoding
  import opened MachineInts
  import opened RaptorQ
  import opened ShardHeaders
  import opened Wrappers

  /** The epochs on their way, each under its own block id. */
  type Sent = map<u32, SentBlock>

  ghost predicate Sends(sent: Sent) {
    forall b | b in sent :: sent[b].Valid() && sent[b].blockId == b
  }

  ghost function Sources(sent: Sent): map<u32, Source>
    requires Sends(sent)
  {
    map b | b in sent :: sent[b].Source()
  }

  ghost predicate GenuineFlow(code: Code, sent: Sent, s: Flow)
    requires Sends(sent)
  {
    && Consistent(s)
    && GenuineState(code, Sources(sent), s.fec)
    && forall b | b in s.delivered :: b in sent && Below(s.delivered[b], sent[b].cut.Shards())
  }

  ghost predicate Below(indices: set<u16>, count: nat) {
    forall x | x in indices :: x < count
  }

  function FirstIndices(count: u16): set<u16> {
    set x: u16 | Before(x, count)
  }

  predicate Before(x: u16, count: nat) {
    x < count
  }

  /** The shards of a cut with exactly these source indices, each as it was put in. */
  ghost predicate GenuineOutput(c: Cut, b: u32, output: seq<Shard>, fresh': set<u16>)
    requires c.Valid()
  {
    && (forall shard | shard in output ::
          && shard.header.sourceIndex < c.Shards() && shard.header.sourceIndex in fresh'
          && shard == ShardAt(c, b, shard.header.sourceIndex, shard.recovery))
    && (forall x | x in fresh' :: Carries(c, b, output, x))
  }

  ghost predicate Carries(c: Cut, b: u32, output: seq<Shard>, x: u16)
    requires c.Valid()
  {
    x < c.Shards() && (ShardAt(c, b, x, Systematic) in output || ShardAt(c, b, x, Repaired) in output)
  }

  lemma ShardAtIndex(c: Cut, b: u32, i: nat, recovery: Recovery)
    requires c.Valid() && i < c.Shards()
    ensures var shard := ShardAt(c, b, i, recovery);
            shard.header.sourceIndex == i && shard.recovery == recovery && shard.blockId == b
  {
    hide Fragment, SlotAt;
    SlotAtIs(c, i);
  }

  lemma SortKeepsGenuine(c: Cut, b: u32, output: seq<Shard>, fresh': set<u16>)
    requires c.Valid() && GenuineOutput(c, b, output, fresh')
    ensures GenuineOutput(c, b, StableSort(BySourceIndex, output), fresh')
  {
    hide StableSort, ShardAt;
    SortMembers(BySourceIndex, output);
  }

  /** Where nothing is padded, cutting by `chunks_exact` and by source symbol is the same. */
  lemma SliceIsSourceSymbol(data: Bytes, t: nat, k: nat, i: nat)
    requires i < k && |data| == t * k
    ensures i * t <= |data| && SymbolSlice(data, t, k, i) == SourceSymbol(data, t, i)
  {
    SliceFits(t, k, i);
    var from := i * t;
    assert (data + Zeros(t))[from..from + t] == data[from..from + t];
  }

  /** Symbol `i` cut out of the recovered object is symbol `i` of the epoch. */
  lemma SliceIsSymbol(c: Cut, i: nat)
    requires c.Encodable() && i < c.Shards()
    ensures |ObjectOf(c)| == c.SymbolSize() * c.Shards()
    ensures SymbolSlice(ObjectOf(c), c.SymbolSize(), c.Shards(), i) == SymbolAt(c, i)
  {
    hide ObjectOf, SymbolAt, Cut.Shards, SymbolSlice, SourceSymbol, Cut.SymbolSize;
    ObjectSize(c);
    SourceSymbolIs(c, i);
    SliceIsSourceSymbol(ObjectOf(c), c.SymbolSize(), c.Shards(), i);
  }

  /** Indices from `i` on that were not delivered. */
  function MissingFrom(c: Cut, i: nat, delivered: set<u16>): set<u16>
    requires c.Valid()
  {
    set x: u16 | IsMissing(c, i, delivered, x)
  }

  predicate IsMissing(c: Cut, i: nat, delivered: set<u16>, x: u16)
    requires c.Valid()
  {
    i <= x < c.Shards() && x !in delivered
  }

  function Missing(c: Cut, delivered: set<u16>): set<u16>
    requires c.Valid()
  {
    MissingFrom(c, 0, delivered)
  }

  lemma GenuineConcat(c: Cut, b: u32, o1: seq<Shard>, f1: set<u16>, o2: seq<Shard>, f2: set<u16>)
    requires c.Valid() && GenuineOutput(c, b, o1, f1) && GenuineOutput(c, b, o2, f2)
    ensures GenuineOutput(c, b, o1 + o2, f1 + f2)
  {
    hide ShardAt, Cut.Shards;
    forall x | x in f1 + f2 ensures Carries(c, b, o1 + o2, x) {
      assert Carries(c, b, o1, x) || Carries(c, b, o2, x);
    }
  }

  lemma GenuineSingle(c: Cut, b: u32, i: nat, recovery: Recovery)
    requires c.Valid() && i < c.Shards()
    ensures c.Shards() <= U16_MAX
    ensures GenuineOutput(c, b, [ShardAt(c, b, i, recovery)], {i})
  {
    hide ShardAt, Cut.Shards;
    ShardAtIndex(c, b, i, recovery);
    ShardsBelow(c);
  }

  lemma MissingStep(c: Cut, i: u16, delivered: set<u16>)
    requires c.Valid() && i < c.Shards()
    ensures MissingFrom(c, i, delivered)
            == if i in delivered then MissingFrom(c, i + 1, delivered) else {i} + MissingFrom(c, i + 1, delivered + {i})
  {
    hide Cut.Valid, Cut.Shards;
    if i !in delivered {
      var rest := {i} + MissingFrom(c, i + 1, delivered + {i});
      assert forall x: u16 :: x in rest <==> IsMissing(c, i, delivered, x);
    } else {
      assert forall x: u16 :: IsMissing(c, i, delivered, x) <==> IsMissing(c, i + 1, delivered, x);
    }
  }

  /** Filling the holes from the true object delivers exactly the missing shards. */
  lemma {:induction false} FillGenuine(c: Cut, b: u32, i: nat, delivered: set<u16>)
    requires c.Encodable() && i <= c.Shards() && Below(delivered, c.Shards())
    requires |ObjectOf(c)| == c.SymbolSize() * c.Shards()
    ensures var filled := FillHoles(b, c.Shards(), c.SymbolSize(), ObjectOf(c), i, delivered);
            var missing := MissingFrom(c, i, delivered);
            && filled.error.None?
            && filled.delivered == delivered + missing
            && GenuineOutput(c, b, filled.output, missing)
            && forall shard | shard in filled.output :: shard.recovery.Repaired?
    decreases c.Shards() - i
  {
    hide ObjectOf, Cut.Shards, ShardAt, SymbolSlice, DecodeSymbol, SymbolAt, GenuineOutput, MissingFrom;
    if i == c.Shards() {
      NothingMissing(c, b, delivered);
    } else {
      ShardsBelow(c);
      MissingStep(c, i, delivered);
      if i in delivered {
        FillGenuine(c, b, i + 1, delivered);
      } else {
        SliceIsSymbol(c, i);
        SymbolDecodes(c, b, i, Repaired);
        FillGenuine(c, b, i + 1, delivered + {i});
        var rest := FillHoles(b, c.Shards(), c.SymbolSize(), ObjectOf(c), i + 1, delivered + {i});
        GenuineSingle(c, b, i, Repaired);
        ShardAtIndex(c, b, i, Repaired);
        GenuineConcat(c, b, [ShardAt(c, b, i, Repaired)], {i}, rest.output, MissingFrom(c, i + 1, delivered + {i}));
      }
    }
  }

  lemma NothingMissing(c: Cut, b: u32, delivered: set<u16>)
    requires c.Valid()
    ensures MissingFrom(c, c.Shards(), delivered) == {} && GenuineOutput(c, b, [], {})
  {
    assert forall x: u16 :: !IsMissing(c, c.Shards(), delivered, x);
  }

  /** A datagram that parses goes straight to admission, unless its block is closed. */
  lemma PushParsed(code: Code, s: Flow, datagram: Bytes)
    requires Parse(datagram).Success?
    ensures PushedAudio(code, s, datagram) ==
            if Parse(datagram).value.header.blockId in s.completed.members then (s, Success([]))
            else Admitted(code, s, datagram, Parse(datagram).value)
  {
    hide DecodeHeader, Header.Payload, Admitted, DeserializePacket;
  }

  /** One genuine datagram, seen by the block decoder. */
  lemma FecGenuine(code: Code, sent: Sent, fec: Decoder, b: u32, datagram: Bytes)
    requires code.Lawful() && Sends(sent) && b in sent && GenuineState(code, Sources(sent), fec)
    requires Parse(datagram).Success? && Parse(datagram).value.header.blockId == b
    requires GenuineArrival(code, sent[b].Source(), Parse(datagram).value)
    ensures sent[b].Source().Valid()
    ensures var (fec', r) := FecDecoding.Pushed(code, fec, datagram);
            && GenuineState(code, Sources(sent), fec')
            && Steps(code, sent[b].Source(), fec, fec', r, b, Parse(datagram).value.packet.esi)
            && fec'.blocks.Keys <= fec.blocks.Keys + {b}
            && r.Success? && (r.value.Some? ==> r.value.value == ObjectOf(sent[b].cut) && b !in fec'.blocks)
  {
    hide Parse, Source.Valid, GenuineArrival, GenuineBlock, ObjectOf, FecDecoding.Pushed, Code.Lawful, Decodes;
    assert Sources(sent)[b] == sent[b].Source();
    SourceIsValid(code, sent[b].Source(), Parse(datagram).value);
    GenuineStep(code, Sources(sent), fec, datagram);
  }

  /** The shard a genuine datagram carries in the clear. */
  lemma CandidateGenuine(code: Code, s: SentBlock, i: nat)
    requires code.Lawful() && s.Valid() && i < s.Datagrams()
    requires Parse(SentDatagram(code, s, i)).Success?
    ensures Candidate(Parse(SentDatagram(code, s, i)).value)
            == Success(if i < s.cut.Shards() then Some(ShardAt(s.cut, s.blockId, i, Systematic)) else None)
  {
    hide Parse, SentDatagram, DecodeSymbol, ShardAt, SymbolAt, ObjectOf, Cut.Shards;
    SentDatagramParses(code, s, i);
    if i < s.cut.Shards() {
      SourceDatagramCarries(code, s, i);
      SymbolDecodes(s.cut, s.blockId, i, Systematic);
    }
  }

  /** Indices a datagram delivers by itself. */
  function OwnIndex(s: SentBlock, i: nat): set<u16>
    requires s.Valid()
  {
    ShardsBelow(s.cut);
    if i < s.cut.Shards() then {i} else {}
  }

  /**
   The outcome of one genuine datagram of an open block: its own shard is handed out unless it was
   before; or the block completes and everything not handed out yet is.
   */
  ghost predicate Progress(s: SentBlock, i: nat, before: Flow, after: Flow, output: seq<Shard>)
    requires s.Valid()
  {
    var b, had := s.blockId, DeliveredOf(before, s.blockId);
    ShardsBelow(s.cut);
    var all := FirstIndices(s.cut.Shards());
    && Labelled(i, output)
    && (|| (GenuineOutput(s.cut, b, output, OwnIndex(s, i) - had)
            && DeliveredOf(after, b) == had + OwnIndex(s, i) && b !in after.completed.members)
        || (GenuineOutput(s.cut, b, output, all - had) && b in after.completed.members))
  }

  /** The shard of the datagram itself is marked systematic, all others are marked as recovered. */
  ghost predicate Labelled(i: nat, output: seq<Shard>) {
    forall shard | shard in output :: shard.recovery == if shard.header.sourceIndex == i then Systematic else Repaired
  }

  lemma SortKeepsLabels(i: nat, output: seq<Shard>)
    requires Labelled(i, output)
    ensures Labelled(i, StableSort(BySourceIndex, output))
  {
    hide StableSort;
    SortMembers(BySourceIndex, output);
    forall shard | shard in StableSort(BySourceIndex, output) ensures shard in output {
      assert shard in multiset(StableSort(BySourceIndex, output));
    }
  }

  /** Shards not handed out before, without recovery: at most the datagram's own. */
  function OwnOutput(s: SentBlock, i: nat, had: set<u16>): seq<Shard>
    requires s.Valid()
  {
    if i < s.cut.Shards() && i !in had then [ShardAt(s.cut, s.blockId, i, Systematic)] else []
  }

  lemma OwnOutputGenuine(s: SentBlock, i: nat, had: set<u16>)
    requires s.Valid()
    ensures GenuineOutput(s.cut, s.blockId, OwnOutput(s, i, had), OwnIndex(s, i) - had)
  {
    hide ObjectOf, Cut.Shards, ShardAt;
    if i < s.cut.Shards() {
      ShardAtIndex(s.cut, s.blockId, i, Systematic);
    }
  }

  ghost predicate OthersUntouched(flow: Flow, after: Flow, s: SentBlock)
    requires s.Valid()
  {
    && after.fec == flow.fec
    && forall b | b in after.delivered ::
         if b == s.blockId then Below(after.delivered[b], s.cut.Shards())
         else b in flow.delivered && after.delivered[b] == flow.delivered[b]
  }

  lemma DeliveredDirect(s: SentBlock, i: nat, flow: Flow, header: Header)
    requires s.Valid() && s.blockId !in flow.completed.members && header.blockId == s.blockId
    requires Below(DeliveredOf(flow, s.blockId), s.cut.Shards())
    ensures var candidate := if i < s.cut.Shards() then Some(ShardAt(s.cut, s.blockId, i, Systematic)) else None;
            var (after, r) := Delivered(flow, header, candidate, None);
            && r.Success? && Progress(s, i, flow, after, r.value) && OthersUntouched(flow, after, s)
            && s.blockId !in after.completed.members
  {
    hide ObjectOf, Cut.Shards, ShardAt, StableSort, FillHoles, GenuineOutput;
    var had := DeliveredOf(flow, s.blockId);
    ShardsBelow(s.cut);
    if i < s.cut.Shards() {
      ShardAtIndex(s.cut, s.blockId, i, Systematic);
    }
    OwnOutputGenuine(s, i, had);
    SortKeepsGenuine(s.cut, s.blockId, OwnOutput(s, i, had), OwnIndex(s, i) - had);
    SortKeepsLabels(i, OwnOutput(s, i, had));
  }

  lemma DeliveredRecovered(s: SentBlock, i: nat, flow: Flow, header: Header)
    requires s.Valid() && Consistent(flow) && s.blockId !in flow.completed.members && s.blockId !in flow.fec.blocks
    requires header.blockId == s.blockId && header.sourceSymbols == s.cut.Shards() && header.symbolSize == s.cut.SymbolSize()
    requires Below(DeliveredOf(flow, s.blockId), s.cut.Shards())
    ensures var candidate := if i < s.cut.Shards() then Some(ShardAt(s.cut, s.blockId, i, Systematic)) else None;
            var (after, r) := Delivered(flow, header, candidate, Some(ObjectOf(s.cut)));
            && r.Success? && Progress(s, i, flow, after, r.value) && OthersUntouched(flow, after, s)
            && s.blockId in after.completed.members
  {
    hide ObjectOf, Cut.Shards, ShardAt, StableSort, FillHoles, GenuineOutput, CloseBlock, Consistent, Cut.SymbolSize;
    var c, b, had := s.cut, s.blockId, DeliveredOf(flow, s.blockId);
    ShardsBelow(c);
    if i < c.Shards() {
      ShardAtIndex(c, b, i, Systematic);
    }
    ObjectSize(c);
    var marked: set<u16> := had + OwnIndex(s, i);
    assert marked == if i < c.Shards() && i !in had then had + {i} else had;
    FillGenuine(c, b, 0, marked);
    var filled := FillHoles(b, c.Shards(), c.SymbolSize(), ObjectOf(c), 0, marked);
    var output := OwnOutput(s, i, had) + filled.output;
    AllOutputGenuine(s, i, had, filled.output);
    AllLabelled(s, i, had, filled.output);
    SortKeepsLabels(i, output);
    SortKeepsGenuine(c, b, output, FirstIndices(c.Shards()) - had);
    CloseRecovered(flow, b, filled.delivered);
  }

  lemma AllLabelled(s: SentBlock, i: nat, had: set<u16>, filled: seq<Shard>)
    requires s.Valid() && GenuineOutput(s.cut, s.blockId, filled, Missing(s.cut, had + OwnIndex(s, i)))
    requires forall shard | shard in filled :: shard.recovery.Repaired?
    ensures Labelled(i, OwnOutput(s, i, had) + filled)
  {
    hide ObjectOf, Cut.Shards, ShardAt;
    if i < s.cut.Shards() {
      ShardAtIndex(s.cut, s.blockId, i, Systematic);
    }
  }

  /** The own shard, if it was still to come, and all that were missing then. */
  lemma AllOutputGenuine(s: SentBlock, i: nat, had: set<u16>, filled: seq<Shard>)
    requires s.Valid()
    requires GenuineOutput(s.cut, s.blockId, filled, Missing(s.cut, had + OwnIndex(s, i)))
    ensures s.cut.Shards() <= U16_MAX
    ensures GenuineOutput(s.cut, s.blockId, OwnOutput(s, i, had) + filled, FirstIndices(s.cut.Shards()) - had)
  {
    hide ObjectOf, Cut.Shards, ShardAt, OwnOutput, GenuineOutput;
    ShardsBelow(s.cut);
    OwnOutputGenuine(s, i, had);
    var own, missing := OwnIndex(s, i) - had, Missing(s.cut, had + OwnIndex(s, i));
    GenuineConcat(s.cut, s.blockId, OwnOutput(s, i, had), own, filled, missing);
    assert own + missing == FirstIndices(s.cut.Shards()) - had;
  }

  lemma CloseRecovered(flow: Flow, b: u32, delivered: set<u16>)
    requires Consistent(flow) && b !in flow.completed.members && b !in flow.fec.blocks
    ensures var after := CloseBlock(flow.(delivered := flow.delivered[b := delivered]), b);
            && b in after.completed.members && after.fec == flow.fec
            && after.delivered == flow.delivered - {b}
  {
    hide Remembered;
    CloseKeeps(flow.(delivered := flow.delivered[b := delivered]), b);
  }

  /** The block decoder still collects block `b`, and symbol `i` lets it recover the object. */
  ghost predicate Recovers(code: Code, s: SentBlock, flow: Flow, i: nat)
    requires s.Valid()
  {
    s.blockId !in flow.fec.completed && CanDecode(code, s, HeldIds(flow.fec, s.blockId) + {i})
  }

  /** The code recovers the epoch from the datagrams with these indices. */
  ghost predicate CanDecode(code: Code, s: SentBlock, indices: set<nat>)
    requires s.Valid()
  {
    SourceValid(s);
    Decodes(code, s.Source(), indices)
  }

  /**
   A datagram of a sent epoch is never refused. For a closed block nothing happens; for an open one
   exactly the shards not handed out before are, byte for byte as they were put in, and the block closes
   with all of them exactly when the code can decode the symbols held.
   */
  lemma GenuinePush(code: Code, sent: Sent, s: Flow, b: u32, i: nat)
    requires code.Lawful() && Sends(sent) && b in sent && i < sent[b].Datagrams() && GenuineFlow(code, sent, s)
    ensures var (s', r) := PushedAudio(code, s, SentDatagram(code, sent[b], i));
            && r.Success? && GenuineFlow(code, sent, s')
            && (b in s.completed.members ==> s' == s && r.value == [])
            && (b !in s.completed.members ==>
                  && Progress(sent[b], i, s, s', r.value)
                  && (b in s'.completed.members <==> Recovers(code, sent[b], s, i)))
  {
    hide Parse, SentDatagram, Delivered, ObserveInFlight, FecDecoding.Pushed, Candidate, ObjectOf, Cut.Shards, Progress,
         GenuineArrival, GenuineState, Consistent, Recovers;
    var datagram := SentDatagram(code, sent[b], i);
    SentDatagramParses(code, sent[b], i);
    PushParsed(code, s, datagram);
    PushKeeps(code, s, datagram);
    if b !in s.completed.members {
      CandidateGenuine(code, sent[b], i);
      FecGenuine(code, sent, s.fec, b, datagram);
      AdmittedGenuine(code, sent, s, b, i);
    }
  }

  lemma SourceValid(s: SentBlock)
    requires s.Valid()
    ensures s.Source().Valid()
  {
    ProfileDescribes(s);
  }

  lemma AdmittedGenuine(code: Code, sent: Sent, s: Flow, b: u32, i: nat)
    requires code.Lawful() && Sends(sent) && b in sent && i < sent[b].Datagrams() && GenuineFlow(code, sent, s)
    requires b !in s.completed.members
    requires Parse(SentDatagram(code, sent[b], i)).Success?
    ensures var (s', r) := Admitted(code, s, SentDatagram(code, sent[b], i), Parse(SentDatagram(code, sent[b], i)).value);
            && r.Success? && Progress(sent[b], i, s, s', r.value)
            && (b in s'.completed.members <==> Recovers(code, sent[b], s, i))
            && GenuineState(code, Sources(sent), s'.fec)
            && forall x | x in s'.delivered :: x in sent && Below(s'.delivered[x], sent[x].cut.Shards())
  {
    hide Parse, SentDatagram, Delivered, ObserveInFlight, FecDecoding.Pushed, Candidate, ObjectOf, Cut.Shards, Progress,
         GenuineArrival, GenuineBlock, OwnIndex, Cut.SymbolSize, SlotAt, ShardAt, Decodes, TakesIn, Closes, HeldIds,
         Source.Valid;
    var datagram := SentDatagram(code, sent[b], i);
    SentDatagramParses(code, sent[b], i);
    CandidateGenuine(code, sent[b], i);
    FecGenuine(code, sent, s.fec, b, datagram);
    var arrival := Parse(datagram).value;
    var pushed := FecDecoding.Pushed(code, s.fec, datagram);
    var t := s.(fec := pushed.0);
    HeaderGeometry(code, sent[b], arrival);
    if pushed.1.value.None? {
      ObserveKeeps(t, b);
      var u := ObserveInFlight(t, b);
      assert GenuineState(code, Sources(sent), u.fec);
      DeliveredDirect(sent[b], i, u, arrival.header);
      ProgressFrom(sent[b], i, s, u, Admitted(code, s, datagram, arrival));
    } else {
      DeliveredRecovered(sent[b], i, t, arrival.header);
      ProgressFrom(sent[b], i, s, t, Admitted(code, s, datagram, arrival));
    }
  }

  lemma HeaderGeometry(code: Code, s: SentBlock, arrival: Arrival)
    requires s.Valid() && GenuineArrival(code, s.Source(), arrival)
    ensures arrival.header.sourceSymbols == s.cut.Shards() && arrival.header.symbolSize == s.cut.SymbolSize()
  {
    hide ObjectOf, Cut.Shards;
    ObjectIsSource(s.cut);
  }

  /** Progress depends on the earlier state only through what was handed out. */
  lemma ProgressFrom(s: SentBlock, i: nat, before: Flow, between: Flow, outcome: (Flow, Outcome))
    requires s.Valid() && DeliveredOf(before, s.blockId) == DeliveredOf(between, s.blockId)
    requires outcome.1.Success? && Progress(s, i, between, outcome.0, outcome.1.value)
    ensures Progress(s, i, before, outcome.0, outcome.1.value)
  {
    hide GenuineOutput, OwnIndex;
  }
}
