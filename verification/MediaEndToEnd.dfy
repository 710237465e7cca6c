/** From media encoder to media decoder: what is handed out was sent, and each frame exactly once. */
module MediaEndToEnd {
  import opened Arithmetic
  import opened ByteCodec
  import opened FecDecoding
  import opened FecEncoding
  import opened MachineInts
  import opened MediaDecoding
  import opened MediaEncoding
  import opened MediaFragments
  import opened MediaLayout
  import opened RaptorQ
  import opened Wrappers

  /** One block on its way: fragment `index` of a frame. */
  datatype SentFragment = SentFragment(frame: MediaFrame, decision: Decision, index: nat) {
    function Max(): nat {
      decision.MaxFragment()
    }

    ghost predicate Valid() {
      && Cuttable(frame, Max()) && index < FragmentCount(|frame.payload|, Max())
      && FragmentSource(frame, decision, index).Valid()
    }

    ghost function Source(): Source
      requires Valid()
    {
      FragmentSource(frame, decision, index)
    }
  }

  /** The blocks on their way by block id. */
  type MediaSent = map<u32, SentFragment>

  function FrameKey(frame: MediaFrame): Key {
    Key(frame.metadata.streamId, frame.metadata.sequence)
  }

  /** Fragments that claim to be of the same frame are, and were cut the same way. */
  ghost predicate SameCut(a: SentFragment, b: SentFragment) {
    FrameKey(a.frame) == FrameKey(b.frame) ==> a.frame == b.frame && a.Max() == b.Max()
  }

  ghost predicate MediaSends(sent: MediaSent) {
    && (forall b | b in sent :: sent[b].Valid())
    && (forall a, b | a in sent && b in sent :: SameCut(sent[a], sent[b]))
  }

  ghost function MediaSources(sent: MediaSent): map<u32, Source>
    requires MediaSends(sent)
  {
    map b | b in sent :: sent[b].Source()
  }

  function FrameOf(frame: MediaFrame): DecodedFrame {
    DecodedFrame(frame.metadata, frame.payload)
  }

  // ----- one frame being put together

  ghost predicate ExactPartial(frame: MediaFrame, max: nat, p: PartialFrame)
    requires max > 0
  {
    && p.metadata == frame.metadata && p.accessUnitLen == |frame.payload|
    && |p.fragments| == FragmentCount(|frame.payload|, max)
    && forall i | 0 <= i < |p.fragments| && p.fragments[i].Some? :: p.fragments[i].value == FragmentOf(frame.payload, max, i)
  }

  /** What is left of the payload from fragment `i` on. */
  function Rest(payload: Bytes, max: nat, i: nat): Bytes {
    payload[Min(i * max, |payload|)..]
  }

  lemma RestSplits(payload: Bytes, max: nat, i: nat)
    requires max > 0 && i < FragmentCount(|payload|, max)
    ensures Rest(payload, max, i) == FragmentOf(payload, max, i) + Rest(payload, max, i + 1)
  {
    StartWithin(|payload|, max, i);
    NextStart(i, max);
    TailSplits(payload, i * max, Min(i * max + max, |payload|));
  }

  lemma NextStart(i: nat, max: nat)
    ensures (i + 1) * max == i * max + max
  {
  }

  lemma TailSplits(payload: Bytes, start: nat, end: nat)
    requires start <= end <= |payload|
    ensures payload[start..] == payload[start..end] + payload[end..]
  {
  }

  lemma RestEnds(payload: Bytes, max: nat)
    requires max > 0
    ensures Rest(payload, max, FragmentCount(|payload|, max)) == [] && Rest(payload, max, 0) == payload
  {
    hide CeilDiv;
    CeilDivCovers(|payload|, max);
    MulAtMost(CeilDiv(|payload|, max), FragmentCount(|payload|, max), max);
  }

  lemma {:induction false} JoinExact(payload: Bytes, max: nat, fragments: seq<Option<Bytes>>, i: nat)
    requires max > 0 && |fragments| == FragmentCount(|payload|, max) && i <= |fragments|
    requires forall j | 0 <= j < |fragments| :: fragments[j] == Some(FragmentOf(payload, max, j))
    ensures JoinPieces(fragments[i..]) == Success(Rest(payload, max, i))
    decreases |fragments| - i
  {
    hide Rest, FragmentOf, FragmentCount;
    if i == |fragments| {
      RestEnds(payload, max);
    } else {
      RestSplits(payload, max, i);
      JoinExact(payload, max, fragments, i + 1);
      assert fragments[i..][1..] == fragments[i + 1..];
    }
  }

  lemma FinishExact(frame: MediaFrame, max: nat, p: PartialFrame)
    requires max > 0 && ExactPartial(frame, max, p) && PartialOk(p) && p.received == |p.fragments|
    ensures Finish(p) == Success(FrameOf(frame))
  {
    hide FragmentOf, FragmentCount, Rest;
    FilledBounds(p.fragments);
    JoinExact(frame.payload, max, p.fragments, 0);
    RestEnds(frame.payload, max);
    assert p.fragments[0..] == p.fragments;
  }

  /** The decoder reads from a block the header and fragment put into it. */
  lemma BlockReads(frame: MediaFrame, max: nat, i: nat)
    requires Cuttable(frame, max) && i < FragmentCount(|frame.payload|, max)
    ensures var block := BlockData(frame, max, i);
            && |block| >= MEDIA_HEADER_LEN
            && DecodeFragment(block[..MEDIA_HEADER_LEN]) == Success(HeaderOf(frame, max, i))
            && block[MEDIA_HEADER_LEN..] == FragmentOf(frame.payload, max, i)
  {
    hide EncodeFragment, DecodeFragment, FragmentOf, FragmentCount;
    FragmentRoundTrip(HeaderOf(frame, max, i), []);
    var header := EncodeFragment(HeaderOf(frame, max, i)).value;
    assert header + [] == header;
    assert BlockData(frame, max, i)[..MEDIA_HEADER_LEN] == header;
  }

  lemma BlockGoesToFragment(s: MediaState, frame: MediaFrame, max: nat, i: nat)
    requires Cuttable(frame, max) && i < FragmentCount(|frame.payload|, max)
    ensures TakeBlock(s, BlockData(frame, max, i)) ==
            if FrameKey(frame) in s.completed then Taken(s, Success(None), None)
            else TakeFragment(s, HeaderOf(frame, max, i), FragmentOf(frame.payload, max, i))
  {
    hide TakeFragment, DecodeFragment, BlockData, FragmentCount;
    BlockReads(frame, max, i);
  }

  lemma NewPartialExact(frame: MediaFrame, max: nat, i: nat)
    requires Cuttable(frame, max) && i < FragmentCount(|frame.payload|, max)
    ensures ExactPartial(frame, max, NewPartial(HeaderOf(frame, max, i)))
    ensures PartialOk(NewPartial(HeaderOf(frame, max, i)))
  {
    hide FragmentOf, FragmentCount;
    NewPartialOk(HeaderOf(frame, max, i));
  }

  /** A fragment always fits the frame it is of; it fills its slot and no other. */
  lemma InsertExact(frame: MediaFrame, max: nat, p: PartialFrame, i: nat)
    requires Cuttable(frame, max) && i < FragmentCount(|frame.payload|, max) && ExactPartial(frame, max, p) && PartialOk(p)
    ensures var r := Insert(p, HeaderOf(frame, max, i), FragmentOf(frame.payload, max, i));
            && r.Success? && ExactPartial(frame, max, r.value) && PartialOk(r.value)
            && (forall j | 0 <= j < |p.fragments| :: r.value.fragments[j].Some? <==> p.fragments[j].Some? || j == i)
  {
    hide FragmentOf, FragmentCount, Filled;
    InsertKeeps(p, HeaderOf(frame, max, i), FragmentOf(frame.payload, max, i));
  }

  // ----- exactly once

  /** Exactly the fragments in `had` are in, and the frame was not handed out. */
  ghost predicate Holds(s: MediaState, frame: MediaFrame, max: nat, had: set<nat>)
    requires max > 0
  {
    var key := FrameKey(frame);
    && key !in s.completed
    && (if key in s.partial then
          && ExactPartial(frame, max, s.partial[key]) && PartialOk(s.partial[key])
          && forall i: nat | i < |s.partial[key].fragments| :: s.partial[key].fragments[i].Some? <==> i in had
        else had == {})
  }

  ghost predicate Covered(frame: MediaFrame, max: nat, had: set<nat>)
    requires max > 0
  {
    forall i: nat | i < FragmentCount(|frame.payload|, max) :: i in had
  }

  /** One more fragment: the frame comes out exactly when it was the last one missing. */
  lemma FragmentTaken(s: MediaState, frame: MediaFrame, max: nat, had: set<nat>, i: nat)
    requires Cuttable(frame, max) && i < FragmentCount(|frame.payload|, max) && Holds(s, frame, max, had)
    ensures var taken := TakeBlock(s, BlockData(frame, max, i));
            if Covered(frame, max, had + {i}) then
              taken.result == Success(Some(FrameOf(frame))) && FrameKey(frame) in taken.state.completed
            else taken.result == Success(None) && Holds(taken.state, frame, max, had + {i})
  {
    hide FragmentOf, FragmentCount, BlockData, Insert, NewPartial, Finish, Filled, TakeBlock;
    BlockGoesToFragment(s, frame, max, i);
    var h, key := HeaderOf(frame, max, i), FrameKey(frame);
    NewPartialExact(frame, max, i);
    NewPartialEmpty(h);
    var p := if key in s.partial then s.partial[key] else NewPartial(h);
    InsertExact(frame, max, p, i);
    var filled := Insert(p, h, FragmentOf(frame.payload, max, i)).value;
    FilledBounds(filled.fragments);
    if Covered(frame, max, had + {i}) {
      forall j | 0 <= j < |filled.fragments| ensures filled.fragments[j].Some? {
        assert j in had + {i};
      }
      FinishExact(frame, max, filled);
    } else {
      var j: nat :| j < FragmentCount(|frame.payload|, max) && j !in had + {i};
      assert filled.fragments[j].None?;
    }
  }

  lemma NewPartialEmpty(h: FragmentHeader)
    ensures forall i | 0 <= i < |NewPartial(h).fragments| :: NewPartial(h).fragments[i].None?
  {
  }

  /** Results of taking these fragments one after the other. */
  ghost function FeedFragments(s: MediaState, frame: MediaFrame, max: nat, arrivals: seq<nat>): (results: seq<FrameResult>)
    requires Cuttable(frame, max) && forall k | 0 <= k < |arrivals| :: arrivals[k] < FragmentCount(|frame.payload|, max)
    ensures |results| == |arrivals|
    decreases |arrivals|
  {
    if arrivals == [] then [] else
      var taken := TakeBlock(s, BlockData(frame, max, arrivals[0]));
      [taken.result] + FeedFragments(taken.state, frame, max, arrivals[1..])
  }

  lemma {:induction false} NothingMore(s: MediaState, frame: MediaFrame, max: nat, arrivals: seq<nat>)
    requires Cuttable(frame, max) && forall k | 0 <= k < |arrivals| :: arrivals[k] < FragmentCount(|frame.payload|, max)
    requires FrameKey(frame) in s.completed
    ensures forall k | 0 <= k < |arrivals| :: FeedFragments(s, frame, max, arrivals)[k] == Success(None)
    decreases |arrivals|
  {
    hide TakeBlock, BlockData, FragmentCount;
    if arrivals != [] {
      BlockGoesToFragment(s, frame, max, arrivals[0]);
      NothingMore(s, frame, max, arrivals[1..]);
      var results := FeedFragments(s, frame, max, arrivals);
      assert forall k | 1 <= k < |arrivals| :: results[k] == FeedFragments(s, frame, max, arrivals[1..])[k - 1];
    }
  }

  /** The results are the frame at position `at` and nothing elsewhere. */
  ghost predicate OnceAt(results: seq<FrameResult>, frame: MediaFrame, at: nat) {
    && at < |results| && results[at] == Success(Some(FrameOf(frame)))
    && forall k | 0 <= k < |results| && k != at :: results[k] == Success(None)
  }

  lemma {:induction false} FeedOnce(s: MediaState, frame: MediaFrame, max: nat, arrivals: seq<nat>, had: set<nat>) returns (at: nat)
    requires Cuttable(frame, max) && forall k | 0 <= k < |arrivals| :: arrivals[k] < FragmentCount(|frame.payload|, max)
    requires Holds(s, frame, max, had) && !Covered(frame, max, had)
    requires forall i: nat | i < FragmentCount(|frame.payload|, max) :: i in had || i in arrivals
    ensures OnceAt(FeedFragments(s, frame, max, arrivals), frame, at)
    decreases |arrivals|
  {
    hide TakeBlock, BlockData, FragmentCount, Holds;
    if arrivals == [] {
      assert false;
    } else {
      var i := arrivals[0];
      FragmentTaken(s, frame, max, had, i);
      var taken := TakeBlock(s, BlockData(frame, max, i));
      var rest := FeedFragments(taken.state, frame, max, arrivals[1..]);
      var results := FeedFragments(s, frame, max, arrivals);
      assert results == [taken.result] + rest;
      if Covered(frame, max, had + {i}) {
        NothingMore(taken.state, frame, max, arrivals[1..]);
        at := 0;
      } else {
        forall j: nat | j < FragmentCount(|frame.payload|, max) ensures j in had + {i} || j in arrivals[1..] {
          assert j in had || j in arrivals;
        }
        var later := FeedOnce(taken.state, frame, max, arrivals[1..], had + {i});
        at := later + 1;
      }
    }
  }

  /**
   Round trip: the blocks of any frame with compact metadata, in any order and with any repetitions,
   give the frame, payload and metadata as they were, exactly once; every other block gives nothing.
   */
  lemma FrameExactlyOnce(s: MediaState, frame: MediaFrame, max: nat, arrivals: seq<nat>)
    requires Cuttable(frame, max) && forall k | 0 <= k < |arrivals| :: arrivals[k] < FragmentCount(|frame.payload|, max)
    requires forall i: nat | i < FragmentCount(|frame.payload|, max) :: i in arrivals
    requires FrameKey(frame) !in s.completed && FrameKey(frame) !in s.partial
    ensures exists at: nat :: OnceAt(FeedFragments(s, frame, max, arrivals), frame, at)
  {
    hide OnceAt, FeedFragments;
    assert 0 < FragmentCount(|frame.payload|, max);
    var none: set<nat> := {};
    assert 0 !in none;
    var at := FeedOnce(s, frame, max, arrivals, none);
  }

  // ----- whole runs

  ghost predicate ExactFor(sent: MediaSent, key: Key, p: PartialFrame)
    requires MediaSends(sent)
  {
    exists b :: b in sent && FrameKey(sent[b].frame) == key && ExactPartial(sent[b].frame, sent[b].Max(), p)
  }

  /** Everything the decoder holds is as sent. */
  ghost predicate ExactMedia(code: Code, sent: MediaSent, s: MediaState)
    requires MediaSends(sent)
  {
    && MediaOk(s) && GenuineState(code, MediaSources(sent), s.fec)
    && forall key | key in s.partial :: ExactFor(sent, key, s.partial[key])
  }

  ghost predicate GenuineDatagram(code: Code, sent: MediaSent, b: u32, datagram: Bytes)
    requires MediaSends(sent)
  {
    b in sent && exists esi: nat :: CarriesSymbol(code, sent[b].Source(), b, esi, datagram)
  }

  /** A recovered block is the true one, and a genuine datagram is never refused. */
  lemma FecExact(code: Code, sent: MediaSent, fec: Decoder, b: u32, datagram: Bytes)
    requires code.Lawful() && MediaSends(sent) && GenuineState(code, MediaSources(sent), fec)
    requires GenuineDatagram(code, sent, b, datagram)
    ensures var (fec', r) := Pushed(code, fec, datagram);
            && GenuineState(code, MediaSources(sent), fec') && r.Success?
            && (r.value.Some? ==> r.value.value == sent[b].Source().data)
  {
    hide Parse, Source.Valid, GenuineArrival, GenuineBlock, FragmentSource, Pushed, Code.Lawful, Decodes;
    assert MediaSources(sent)[b] == sent[b].Source();
    SourceIsValid(code, sent[b].Source(), Parse(datagram).value);
    GenuineStep(code, MediaSources(sent), fec, datagram);
  }

  lemma ExactHere(sent: MediaSent, b: u32, p: PartialFrame)
    requires MediaSends(sent) && b in sent && ExactFor(sent, FrameKey(sent[b].frame), p)
    ensures ExactPartial(sent[b].frame, sent[b].Max(), p)
  {
    hide ExactPartial;
    var a :| a in sent && FrameKey(sent[a].frame) == FrameKey(sent[b].frame) && ExactPartial(sent[a].frame, sent[a].Max(), p);
    assert SameCut(sent[a], sent[b]);
  }

  lemma BlockExact(code: Code, sent: MediaSent, s: MediaState, b: u32)
    requires MediaSends(sent) && ExactMedia(code, sent, s) && b in sent
    ensures var taken := TakeBlock(s, sent[b].Source().data);
            && ExactMedia(code, sent, taken.state)
            && (taken.result == Success(None) || taken.result == Success(Some(FrameOf(sent[b].frame))))
  {
    hide FragmentOf, FragmentCount, BlockData, Insert, NewPartial, Finish, TakeBlock, GenuineState, ExactPartial, PartialOk;
    var frame, max, i := sent[b].frame, sent[b].Max(), sent[b].index;
    assert sent[b].Valid();
    BlockGoesToFragment(s, frame, max, i);
    var h, key := HeaderOf(frame, max, i), FrameKey(frame);
    if key !in s.completed {
      NewPartialExact(frame, max, i);
      if key in s.partial {
        ExactHere(sent, b, s.partial[key]);
      }
      var p := if key in s.partial then s.partial[key] else NewPartial(h);
      InsertExact(frame, max, p, i);
      TakeFragmentKeeps(s, h, FragmentOf(frame.payload, max, i));
      var filled := Insert(p, h, FragmentOf(frame.payload, max, i)).value;
      assert ExactFor(sent, key, filled);
      if filled.received == |filled.fragments| {
        FinishExact(frame, max, filled);
      }
    }
  }

  /** A genuine datagram is taken in without error, and a frame it completes is the one it is of. */
  lemma PushMediaExact(code: Code, sent: MediaSent, s: MediaState, b: u32, datagram: Bytes)
    requires code.Lawful() && MediaSends(sent) && ExactMedia(code, sent, s) && GenuineDatagram(code, sent, b, datagram)
    ensures var taken := PushedMedia(code, s, datagram);
            && ExactMedia(code, sent, taken.state)
            && (taken.result == Success(None) || taken.result == Success(Some(FrameOf(sent[b].frame))))
  {
    hide Pushed, TakeBlock, MediaOk, GenuineState, ExactFor, CarriesSymbol, FragmentSource, SentFragment.Valid;
    FecExact(code, sent, s.fec, b, datagram);
    var (fec', r) := Pushed(code, s.fec, datagram);
    var s' := s.(fec := fec');
    FecIrrelevant(s, s');
    if r.value.Some? {
      BlockExact(code, sent, s', b);
    }
  }

  lemma {:induction false} MediaRunExact(code: Code, sent: MediaSent, datagrams: seq<Bytes>, blocks: seq<u32>)
    requires code.Lawful() && MediaSends(sent) && |blocks| == |datagrams|
    requires forall k | 0 <= k < |datagrams| :: GenuineDatagram(code, sent, blocks[k], datagrams[k])
    ensures ExactMedia(code, sent, MediaReplay(code, datagrams).0)
    decreases |datagrams|
  {
    hide PushedMedia, ExactMedia, GenuineDatagram;
    if datagrams == [] {
      NewMediaExact(code, sent);
    } else {
      var n := |datagrams| - 1;
      MediaRunExact(code, sent, datagrams[..n], blocks[..n]);
      PushMediaExact(code, sent, MediaReplay(code, datagrams[..n]).0, blocks[n], datagrams[n]);
    }
  }

  lemma NewMediaExact(code: Code, sent: MediaSent)
    requires MediaSends(sent)
    ensures ExactMedia(code, sent, NEW_MEDIA)
  {
  }

  /**
   After any run of datagrams of sent frames, lost, repeated and interleaved at will, the next one is
   accepted, and gives nothing or exactly the frame it belongs to.
   */
  lemma MediaExactOrNothing(code: Code, sent: MediaSent, datagrams: seq<Bytes>, blocks: seq<u32>, next: Bytes, b: u32)
    requires code.Lawful() && MediaSends(sent) && |blocks| == |datagrams|
    requires forall k | 0 <= k < |datagrams| :: GenuineDatagram(code, sent, blocks[k], datagrams[k])
    requires GenuineDatagram(code, sent, b, next)
    ensures var r := PushedMedia(code, MediaReplay(code, datagrams).0, next).result;
            r == Success(None) || r == Success(Some(FrameOf(sent[b].frame)))
  {
    hide PushedMedia, ExactMedia, GenuineDatagram, MediaReplay;
    MediaRunExact(code, sent, datagrams, blocks);
    PushMediaExact(code, sent, MediaReplay(code, datagrams).0, b, next);
  }

  /** The frame's blocks are among those on their way, under the ids the encoder gave them. */
  ghost predicate OnTheWay(sent: MediaSent, frame: MediaFrame, d: Decision, blocks: seq<MediaBlock>) {
    forall j | 0 <= j < |blocks| :: blocks[j].blockId in sent && sent[blocks[j].blockId] == SentFragment(frame, d, j)
  }

  /** Every datagram the encoder returns for a frame is a genuine one of its block. */
  lemma EncodedFrameIsGenuine(code: Code, e: Encoder, frame: MediaFrame, d: Decision, sent: MediaSent, j: nat, k: nat)
    requires code.Lawful() && d.Usable() && MediaSends(sent) && EncodedFrameOf(code, e, frame, d).1.Success?
    requires var encoded := EncodedFrameOf(code, e, frame, d).1.value;
             OnTheWay(sent, frame, d, encoded.blocks) && j < |encoded.blocks| && k < encoded.blocks[j].datagramCount
    ensures var encoded := EncodedFrameOf(code, e, frame, d).1.value;
            && encoded.blocks[j].firstDatagram + k < |encoded.datagrams|
            && GenuineDatagram(code, sent, encoded.blocks[j].blockId, encoded.datagrams[encoded.blocks[j].firstDatagram + k])
  {
    hide EncodedFrameOf, CarriesSymbol, FragmentSource, SameCut, SentFragment.Valid, Cuttable, FragmentCount;
    EncodedSymbol(code, e, frame, d, j, k);
    var block := EncodedFrameOf(code, e, frame, d).1.value.blocks[j];
    assert sent[block.blockId].Valid();
    assert sent[block.blockId].Source() == FragmentSource(frame, d, j);
  }
}
